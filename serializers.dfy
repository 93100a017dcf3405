/** The serializers (hydroponic_manager/serializers.py): what a record looks like
    on the wire, which input fields a write accepts, and the system view with its
    ten newest measurements and its measurement count. A representation is a
    dictionary from field name to value. */
module Serializers {
  import opened Common
  import opened Sequences
  import opened Models

  datatype Value =
    | Int(i: int)
    | Real(r: real)
    | Text(s: string)
    | Items(items: seq<map<string, Value>>)

  type Representation = map<string, Value>

  /** The number of measurements shown in a system view. */
  const LatestLimit: nat := 10

  /** Fields of the read serializer `MeasurementSerializer`. */
  const MeasurementFields: set<string> := {"id", "ph", "tds", "water_temperature", "created_at"}

  /** Fields of the write serializer `MeasurementCreateSerializer`. */
  const MeasurementCreateFields: set<string> := {"system", "ph", "tds", "water_temperature"}

  /** Fields of `HydroponicSystemSerializer`. */
  const SystemFields: set<string> :=
    {"id", "name", "description", "created_at", "updated_at", "owner",
     "latest_measurements", "measurement_count"}

  /** Declared read-only in the system serializer's options. */
  const SystemReadOnlyFields: set<string> := {"created_at", "updated_at", "owner"}

  /** Read-only by nature: the primary key and the two computed fields. */
  const SystemComputedFields: set<string> := {"id", "latest_measurements", "measurement_count"}

  /** The system fields a client can write: all the others are read-only. */
  const SystemWritableFields: set<string> := SystemFields - SystemReadOnlyFields - SystemComputedFields

  lemma SystemWritableFieldsAreNameAndDescription()
    ensures SystemWritableFields == {"name", "description"}
    ensures "owner" !in SystemWritableFields && "created_at" !in SystemWritableFields
    ensures "updated_at" !in SystemWritableFields
  {
  }

  // Reading

  /** A measurement as the read serializer shows it. */
  function MeasurementRepresentation(m: Measurement): (r: Representation)
    ensures r.Keys == MeasurementFields
    ensures r["id"] == Int(m.id) && r["created_at"] == Int(m.createdAt)
    ensures r["ph"] == Real(m.ph) && r["tds"] == Int(m.tds)
    ensures r["water_temperature"] == Real(m.waterTemperature)
  {
    map["id" := Int(m.id), "ph" := Real(m.ph), "tds" := Int(m.tds),
        "water_temperature" := Real(m.waterTemperature), "created_at" := Int(m.createdAt)]
  }

  /** A measurement as the write serializer shows it (the response to a create or an update). */
  function MeasurementCreateRepresentation(m: Measurement): (r: Representation)
    ensures r.Keys == MeasurementCreateFields
    ensures r["system"] == Int(m.system)
  {
    map["system" := Int(m.system), "ph" := Real(m.ph), "tds" := Int(m.tds),
        "water_temperature" := Real(m.waterTemperature)]
  }

  function Representations(ms: seq<Measurement>): (r: seq<Representation>)
    ensures |r| == |ms|
    ensures forall i :: 0 <= i < |ms| ==> r[i] == MeasurementRepresentation(ms[i])
  {
    seq(|ms|, i requires 0 <= i < |ms| => MeasurementRepresentation(ms[i]))
  }

  /** The ordering of the system view's measurement list: newest first. */
  function NewestFirst(): (Measurement, Measurement) -> bool {
    MeasurementOrder(CreatedAtColumn, Descending)
  }

  /** The ten (or fewer) newest measurements of system `id`, newest first. */
  function LatestMeasurements(measurements: seq<Measurement>, id: nat): (r: seq<Measurement>)
    ensures Ordered(r, NewestFirst())
    ensures multiset(r) <= multiset(MeasurementsOf(measurements, id))
  {
    MeasurementOrderIsTotalPreorder(CreatedAtColumn, Descending);
    var sorted := SortBy(MeasurementsOf(measurements, id), NewestFirst());
    TakeOrdered(sorted, LatestLimit, NewestFirst());
    Take(sorted, LatestLimit)
  }

  /** The system view's list holds min(10, n) of the system's n measurements, each at
      most as often as the table holds it, newest first, and no measurement of that
      system left out is newer than one shown. */
  lemma LatestMeasurementsAreTheNewest(measurements: seq<Measurement>, id: nat)
    ensures var all := MeasurementsOf(measurements, id);
            |LatestMeasurements(measurements, id)| == if |all| < LatestLimit then |all| else LatestLimit
    ensures multiset(LatestMeasurements(measurements, id)) <= multiset(MeasurementsOf(measurements, id))
    ensures forall m :: m in LatestMeasurements(measurements, id) ==> m in measurements && m.system == id
    ensures forall i, j :: 0 <= i < j < |LatestMeasurements(measurements, id)| ==>
      LatestMeasurements(measurements, id)[i].createdAt >= LatestMeasurements(measurements, id)[j].createdAt
    ensures forall m, x ::
      (m in measurements && m.system == id && m !in LatestMeasurements(measurements, id) &&
       x in LatestMeasurements(measurements, id)) ==> x.createdAt >= m.createdAt
  {
    MeasurementOrderIsTotalPreorder(CreatedAtColumn, Descending);
    var all := MeasurementsOf(measurements, id);
    var sorted := SortBy(all, NewestFirst());
    var latest := LatestMeasurements(measurements, id);
    SortByMembers(all, NewestFirst());
    assert latest == Take(sorted, LatestLimit);
    TakeOrdered(sorted, LatestLimit, NewestFirst());
    forall i, j | 0 <= i < j < |latest| ensures latest[i].createdAt >= latest[j].createdAt {
      assert NewestFirst()(latest[i], latest[j]);
    }
    forall m | m in latest ensures m in measurements && m.system == id {
      var k :| 0 <= k < |latest| && latest[k] == m;
      assert sorted[k] == m;
    }
    LeftOutAreNotNewer(measurements, id);
  }

  /** No measurement of the system that the list leaves out is newer than one it shows. */
  lemma LeftOutAreNotNewer(measurements: seq<Measurement>, id: nat)
    ensures forall m, x ::
      (m in measurements && m.system == id && m !in LatestMeasurements(measurements, id) &&
       x in LatestMeasurements(measurements, id)) ==> x.createdAt >= m.createdAt
  {
    MeasurementOrderIsTotalPreorder(CreatedAtColumn, Descending);
    var all := MeasurementsOf(measurements, id);
    var sorted := SortBy(all, NewestFirst());
    var latest := LatestMeasurements(measurements, id);
    SortByMembers(all, NewestFirst());
    assert latest == Take(sorted, LatestLimit);
    forall m, x | m in measurements && m.system == id && m !in latest && x in latest
      ensures x.createdAt >= m.createdAt
    {
      assert m in sorted;
      var k :| 0 <= k < |sorted| && sorted[k] == m;
      var i :| 0 <= i < |latest| && latest[i] == x;
      assert |latest| <= k;
      assert i < k && sorted[i] == x;
      assert NewestFirst()(sorted[i], sorted[k]);
    }
  }

  /** What the system serializer shows of system `s`: its model fields, the count of its
      measurement set, and the representations of its ten newest measurements. */
  predicate IsSystemView(rep: Representation, s: System, measurements: seq<Measurement>) {
    && rep.Keys == SystemFields
    && rep["id"] == Int(s.id) && rep["owner"] == Int(s.owner)
    && rep["name"] == Text(s.name) && rep["description"] == Text(s.description)
    && rep["created_at"] == Int(s.createdAt) && rep["updated_at"] == Int(s.updatedAt)
    && rep["measurement_count"] == Int(|MeasurementsOf(measurements, s.id)|)
    && rep["latest_measurements"] == Items(Representations(LatestMeasurements(measurements, s.id)))
  }

  /** The list shows min(10, n) measurements of a count of n: the count exceeds the
      list's length exactly when the system has more than ten measurements. */
  lemma SystemViewCountAndList(rep: Representation, s: System, measurements: seq<Measurement>)
    requires IsSystemView(rep, s, measurements)
    ensures rep["latest_measurements"].Items? && rep["measurement_count"].Int?
    ensures |rep["latest_measurements"].items| ==
            if rep["measurement_count"].i < LatestLimit then rep["measurement_count"].i else LatestLimit
    ensures |rep["latest_measurements"].items| < rep["measurement_count"].i <==>
            rep["measurement_count"].i > LatestLimit
  {
    LatestMeasurementsAreTheNewest(measurements, s.id);
  }

  /** `to_representation` of the system serializer: the model fields, the count of the
      system's measurement set, and a measurement list that is first the whole set and
      is then overwritten by the ten newest. */
  method SystemRepresentation(s: System, measurements: seq<Measurement>) returns (rep: Representation)
    ensures IsSystemView(rep, s, measurements)
  {
    var all := Items(Representations(MeasurementsOf(measurements, s.id)));
    var count := Int(|MeasurementsOf(measurements, s.id)|);
    var latest := Items(Representations(LatestMeasurements(measurements, s.id)));
    rep := SystemFieldsMap(s, all, count);
    rep := rep["latest_measurements" := latest];
    SystemFieldsMapOverwritten(s, all, count, latest);
  }

  /** The dictionary the model serializer builds, with the given list and count. */
  function SystemFieldsMap(s: System, listed: Value, count: Value): Representation {
    map[
      "id" := Int(s.id),
      "name" := Text(s.name),
      "description" := Text(s.description),
      "created_at" := Int(s.createdAt),
      "updated_at" := Int(s.updatedAt),
      "owner" := Int(s.owner),
      "latest_measurements" := listed,
      "measurement_count" := count]
  }

  lemma SystemFieldsMapOverwritten(s: System, listed: Value, count: Value, latest: Value)
    ensures var rep := SystemFieldsMap(s, listed, count)["latest_measurements" := latest];
      && rep.Keys == SystemFields
      && rep["id"] == Int(s.id) && rep["owner"] == Int(s.owner)
      && rep["name"] == Text(s.name) && rep["description"] == Text(s.description)
      && rep["created_at"] == Int(s.createdAt) && rep["updated_at"] == Int(s.updatedAt)
      && rep["measurement_count"] == count
      && rep["latest_measurements"] == latest
  {
  }

  // Writing

  /** `validate_system`: the named system is accepted only if the requesting user owns it,
      and is then returned unchanged. */
  function ValidateSystem(s: System, user: UserId): (r: Result<System>)
    ensures r.Success? <==> s.owner == user
    ensures r.Success? ==> r.value == s
    ensures r.Failure? ==> r.error == ValidationError({"system"})
  {
    if s.owner != user then Failure(ValidationError({"system"})) else Success(s)
  }

  /** The outcome of one input field: absent, converted and validated, or rejected. */
  datatype Parsed<T> = Missing | Accepted(value: T) | Rejected

  function ParseField<T>(data: Representation, name: string, convert: Value -> Option<T>): Parsed<T> {
    if name !in data then Missing
    else match convert(data[name])
      case None => Rejected
      case Some(v) => Accepted(v)
  }

  /** The field's name if the field is rejected, or missing where it is required. */
  function FieldErrors<T>(p: Parsed<T>, name: string, required: bool): set<string> {
    if p.Rejected? || (p.Missing? && required) then {name} else {}
  }

  function AcceptedValue<T>(p: Parsed<T>): Option<T> {
    if p.Accepted? then Some(p.value) else None
  }

  /** A float field takes an integer or a real number. */
  function AsNumber(v: Value): Option<real> {
    match v
    case Int(i) => Some(i as real)
    case Real(r) => Some(r)
    case _ => None
  }

  /** An integer field takes an integer. */
  function AsInteger(v: Value): Option<int> {
    if v.Int? then Some(v.i) else None
  }

  /** A primary key is a non-negative integer. */
  function AsKey(v: Value): Option<nat> {
    if v.Int? && v.i >= 0 then Some(v.i) else None
  }

  /** The related-field conversion of `system` (a primary key of any system), followed
      by `validate_system`. */
  function SystemFieldValue(systems: seq<System>, user: UserId): Value -> Option<nat> {
    (v: Value) =>
      if !v.Int? || v.i < 0 then None
      else match FindSystem(systems, v.i)
        case None => None
        case Some(s) => if ValidateSystem(s, user).Success? then Some(v.i) else None
  }

  function PhFieldValue(): Value -> Option<real> {
    (v: Value) => var x := AsNumber(v); if x.Some? && ValidPh(x.value) then x else None
  }

  function TdsFieldValue(): Value -> Option<int> {
    (v: Value) => if v.Int? && ValidTds(v.i) then Some(v.i) else None
  }

  function TemperatureFieldValue(): Value -> Option<real> {
    (v: Value) => AsNumber(v)
  }

  /** The validated data of a measurement write: one entry per input field, absent when
      a partial update leaves the field out. */
  datatype MeasurementData = MeasurementData(
    system: Option<nat>,
    ph: Option<real>,
    tds: Option<int>,
    waterTemperature: Option<real>)

  /** Whether value `v` is acceptable for write field `f` from `user`. */
  ghost predicate AcceptableMeasurementValue(f: string, v: Value, systems: seq<System>, user: UserId) {
    if f == "system" then v.Int? && v.i >= 0 && OwnerOf(systems, v.i) == Some(user)
    else if f == "ph" then (v.Int? || v.Real?) && ValidPh(AsNumber(v).value)
    else if f == "tds" then v.Int? && v.i >= 0
    else v.Int? || v.Real?
  }

  /** The write fields a serializer rejects: a supplied value that is not acceptable,
      or a field left out of a full (non-partial) write. */
  ghost function RejectedMeasurementFields(data: Representation, systems: seq<System>, user: UserId,
                                           partial: bool): set<string>
  {
    set f | f in MeasurementCreateFields && MeasurementFieldRejected(data, f, systems, user, partial)
  }

  ghost predicate MeasurementFieldRejected(data: Representation, f: string, systems: seq<System>,
                                           user: UserId, partial: bool)
  {
    if f in data then !AcceptableMeasurementValue(f, data[f], systems, user) else !partial
  }

  /** Each write field's parse outcome is rejected exactly when the field is. */
  lemma MeasurementFieldChecks(data: Representation, systems: seq<System>, user: UserId, partial: bool)
    requires Ordered(systems, SystemBefore)
    ensures FieldErrors(ParseField(data, "system", SystemFieldValue(systems, user)), "system", !partial)
         == if MeasurementFieldRejected(data, "system", systems, user, partial) then {"system"} else {}
    ensures FieldErrors(ParseField(data, "ph", PhFieldValue()), "ph", !partial)
         == if MeasurementFieldRejected(data, "ph", systems, user, partial) then {"ph"} else {}
    ensures FieldErrors(ParseField(data, "tds", TdsFieldValue()), "tds", !partial)
         == if MeasurementFieldRejected(data, "tds", systems, user, partial) then {"tds"} else {}
    ensures FieldErrors(ParseField(data, "water_temperature", TemperatureFieldValue()), "water_temperature", !partial)
         == if MeasurementFieldRejected(data, "water_temperature", systems, user, partial) then {"water_temperature"} else {}
  {
    if "system" in data && data["system"].Int? && data["system"].i >= 0 {
      var s := FindSystem(systems, data["system"].i);
      if s.Some? {
        OwnerOfUnique(systems, s.value);
      }
    }
  }

  /** The rejected write fields, field by field. */
  lemma RejectedMeasurementFieldsByField(data: Representation, systems: seq<System>, user: UserId, partial: bool)
    ensures RejectedMeasurementFields(data, systems, user, partial)
         == (if MeasurementFieldRejected(data, "system", systems, user, partial) then {"system"} else {})
          + (if MeasurementFieldRejected(data, "ph", systems, user, partial) then {"ph"} else {})
          + (if MeasurementFieldRejected(data, "tds", systems, user, partial) then {"tds"} else {})
          + (if MeasurementFieldRejected(data, "water_temperature", systems, user, partial)
             then {"water_temperature"} else {})
  {
  }

  /** Validation by `MeasurementCreateSerializer`: every field is checked and every
      failing field is reported; keys outside the four write fields are ignored. */
  function ValidateMeasurementData(data: Representation, systems: seq<System>, user: UserId,
                                   partial: bool): (r: Result<MeasurementData>)
    requires Ordered(systems, SystemBefore)
    ensures r.Failure? <==> RejectedMeasurementFields(data, systems, user, partial) != {}
    ensures r.Failure? ==> r.error == ValidationError(RejectedMeasurementFields(data, systems, user, partial))
    ensures r.Success? ==>
      && r.value.system == (if "system" in data then AsKey(data["system"]) else None)
      && r.value.ph == (if "ph" in data then AsNumber(data["ph"]) else None)
      && r.value.tds == (if "tds" in data then AsInteger(data["tds"]) else None)
      && r.value.waterTemperature == (if "water_temperature" in data then AsNumber(data["water_temperature"]) else None)
  {
    var system := ParseField(data, "system", SystemFieldValue(systems, user));
    var ph := ParseField(data, "ph", PhFieldValue());
    var tds := ParseField(data, "tds", TdsFieldValue());
    var temperature := ParseField(data, "water_temperature", TemperatureFieldValue());
    var errors := FieldErrors(system, "system", !partial) + FieldErrors(ph, "ph", !partial)
                + FieldErrors(tds, "tds", !partial) + FieldErrors(temperature, "water_temperature", !partial);
    MeasurementFieldChecks(data, systems, user, partial);
    RejectedMeasurementFieldsByField(data, systems, user, partial);
    if errors == {} then
      Success(MeasurementData(AcceptedValue(system), AcceptedValue(ph), AcceptedValue(tds),
                              AcceptedValue(temperature)))
    else
      Failure(ValidationError(errors))
  }

  /** Validated write data names a system of the requesting user and carries measured
      values within the model's bounds; a full write supplies all four fields. */
  lemma ValidatedMeasurementData(data: Representation, systems: seq<System>, user: UserId, partial: bool)
    requires Ordered(systems, SystemBefore)
    requires ValidateMeasurementData(data, systems, user, partial).Success?
    ensures var d := ValidateMeasurementData(data, systems, user, partial).value;
      && (!partial ==> d.system.Some? && d.ph.Some? && d.tds.Some? && d.waterTemperature.Some?)
      && (d.system.Some? ==> OwnerOf(systems, d.system.value) == Some(user))
      && (d.ph.Some? ==> ValidPh(d.ph.value))
      && (d.tds.Some? ==> ValidTds(d.tds.value))
  {
    var rejected := RejectedMeasurementFields(data, systems, user, partial);
    assert "system" !in rejected && "ph" !in rejected && "tds" !in rejected && "water_temperature" !in rejected;
  }

  /** `update` of the write serializer: each validated field is set on the instance, and
      a field that a partial write left out keeps its value. */
  function UpdateMeasurementFields(m: Measurement, d: MeasurementData): (r: Measurement)
    ensures r.id == m.id && r.createdAt == m.createdAt
  {
    m.(system := if d.system.Some? then d.system.value else m.system,
       ph := if d.ph.Some? then d.ph.value else m.ph,
       tds := if d.tds.Some? then d.tds.value else m.tds,
       waterTemperature := if d.waterTemperature.Some? then d.waterTemperature.value else m.waterTemperature)
  }

  /** A validated update of one of the user's measurements takes exactly the supplied
      values, keeps every other one, and leaves the measurement valid and on a system of
      the user's; a full write supplies every field. */
  lemma UpdatedMeasurementTakesSuppliedValues(data: Representation, systems: seq<System>, user: UserId,
                                              partial: bool, m: Measurement)
    requires Ordered(systems, SystemBefore)
    requires ValidateMeasurementData(data, systems, user, partial).Success?
    requires OwnerOf(systems, m.system) == Some(user) && ValidPh(m.ph) && ValidTds(m.tds)
    ensures var after := UpdateMeasurementFields(m, ValidateMeasurementData(data, systems, user, partial).value);
      && OwnerOf(systems, after.system) == Some(user) && ValidPh(after.ph) && ValidTds(after.tds)
      && (!partial ==> "system" in data && "ph" in data && "tds" in data && "water_temperature" in data)
      && (if "system" in data then data["system"] == Int(after.system) else after.system == m.system)
      && (if "ph" in data then AsNumber(data["ph"]) == Some(after.ph) else after.ph == m.ph)
      && (if "tds" in data then data["tds"] == Int(after.tds) else after.tds == m.tds)
      && (if "water_temperature" in data then AsNumber(data["water_temperature"]) == Some(after.waterTemperature)
          else after.waterTemperature == m.waterTemperature)
  {
    ValidatedMeasurementData(data, systems, user, partial);
  }

  /** Only the four write fields matter: `id`, `created_at` or any other key supplied
      with a write has no effect. */
  lemma MeasurementWriteIgnoresOtherKeys(data: Representation, extra: Representation,
                                         systems: seq<System>, user: UserId, partial: bool)
    requires Ordered(systems, SystemBefore)
    requires extra.Keys !! MeasurementCreateFields
    ensures ValidateMeasurementData(data + extra, systems, user, partial)
         == ValidateMeasurementData(data - extra.Keys, systems, user, partial)
  {
    var full := data + extra;
    var trimmed := data - extra.Keys;
    assert forall f :: f in MeasurementCreateFields ==>
      (f in full <==> f in trimmed) && (f in full ==> full[f] == trimmed[f]);
    assert RejectedMeasurementFields(full, systems, user, partial)
        == RejectedMeasurementFields(trimmed, systems, user, partial);
  }

  /** What the write serializer shows of a stored, owned measurement is accepted back
      as a full write with the same values. */
  lemma MeasurementCreateRepresentationRoundTrip(m: Measurement, systems: seq<System>, user: UserId)
    requires Ordered(systems, SystemBefore)
    requires ValidPh(m.ph) && ValidTds(m.tds) && OwnerOf(systems, m.system) == Some(user)
    ensures ValidateMeasurementData(MeasurementCreateRepresentation(m), systems, user, false)
         == Success(MeasurementData(Some(m.system), Some(m.ph), Some(m.tds), Some(m.waterTemperature)))
  {
    assert RejectedMeasurementFields(MeasurementCreateRepresentation(m), systems, user, false) == {};
  }

  /** The validated data of a system write. */
  datatype SystemData = SystemData(name: Option<string>, description: Option<string>)

  function NameFieldValue(): Value -> Option<string> {
    (v: Value) => if v.Text? && ValidName(v.s) then Some(v.s) else None
  }

  function DescriptionFieldValue(): Value -> Option<string> {
    (v: Value) => if v.Text? then Some(v.s) else None
  }

  /** Validation by the system serializer: `name` is required (except in a partial update)
      and checked against the model; `description` may be left out or blank; every other
      key, `owner` included, is read-only and ignored. */
  function ValidateSystemData(data: Representation, partial: bool): (r: Result<SystemData>)
    ensures r.Failure? ==> r.error.ValidationError? && r.error.fields <= SystemWritableFields
    ensures r.Failure? ==> ("name" in r.error.fields <==>
      if "name" in data then !(data["name"].Text? && ValidName(data["name"].s)) else !partial)
    ensures r.Failure? ==> ("description" in r.error.fields <==>
      "description" in data && !data["description"].Text?)
    ensures r.Success? <==>
      && (if "name" in data then data["name"].Text? && ValidName(data["name"].s) else partial)
      && ("description" in data ==> data["description"].Text?)
    ensures r.Success? ==>
      && r.value.name == (if "name" in data then Some(data["name"].s) else None)
      && r.value.description == (if "description" in data then Some(data["description"].s) else None)
  {
    var name := ParseField(data, "name", NameFieldValue());
    var description := ParseField(data, "description", DescriptionFieldValue());
    var errors := FieldErrors(name, "name", !partial) + FieldErrors(description, "description", false);
    if errors == {} then Success(SystemData(AcceptedValue(name), AcceptedValue(description)))
    else Failure(ValidationError(errors))
  }

  /** Only `name` and `description` matter: `owner`, the timestamps or any other key
      supplied with a system write have no effect. */
  lemma SystemWriteIgnoresOtherKeys(data: Representation, extra: Representation, partial: bool)
    requires extra.Keys !! SystemWritableFields
    ensures ValidateSystemData(data + extra, partial) == ValidateSystemData(data - extra.Keys, partial)
  {
    SystemWritableFieldsAreNameAndDescription();
    var full := data + extra;
    var trimmed := data - extra.Keys;
    assert ("name" in full <==> "name" in trimmed) && ("name" in full ==> full["name"] == trimmed["name"]);
    assert ("description" in full <==> "description" in trimmed) &&
           ("description" in full ==> full["description"] == trimmed["description"]);
  }

  /** `update` of the system serializer: the validated writable fields are set on the
      instance; the owner, the key and the timestamps are not writable. */
  function UpdateSystemFields(s: System, d: SystemData): (r: System)
    ensures r.id == s.id && r.owner == s.owner && r.createdAt == s.createdAt && r.updatedAt == s.updatedAt
  {
    s.(name := if d.name.Some? then d.name.value else s.name,
       description := if d.description.Some? then d.description.value else s.description)
  }

  /** A validated system update takes exactly the supplied name and description, keeps
      the ones left out, and leaves a valid name. */
  lemma UpdatedSystemTakesSuppliedValues(data: Representation, partial: bool, s: System)
    requires ValidateSystemData(data, partial).Success? && ValidName(s.name)
    ensures var after := UpdateSystemFields(s, ValidateSystemData(data, partial).value);
      && ValidName(after.name)
      && (!partial ==> "name" in data)
      && (if "name" in data then Text(after.name) == data["name"] else after.name == s.name)
      && (if "description" in data then Text(after.description) == data["description"]
          else after.description == s.description)
  {
  }
}
