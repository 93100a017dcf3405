/** The two tables of the hydroponic manager (hydroponic_manager/models.py):
    systems owned by a user, and measurements that each belong to one system.
    Timestamps come from a counter that ticks on every save that stamps a row,
    so creation times strictly increase along each table. */
module Models {
  import opened Common
  import opened Sequences

  /** A user is an opaque identity supplied by authentication. */
  type UserId = nat

  const MaxNameLength: nat := 100
  const PhMin: real := 0.0
  const PhMax: real := 14.0

  datatype System = System(
    id: nat,
    owner: UserId,
    name: string,
    description: string,
    createdAt: nat,
    updatedAt: nat)

  datatype Measurement = Measurement(
    id: nat,
    system: nat,
    ph: real,
    tds: int,
    waterTemperature: real,
    createdAt: nat)

  /** `name` is a required character field of at most 100 characters. */
  predicate ValidName(name: string) { 0 < |name| <= MaxNameLength }

  /** `ph` carries a minimum-value validator of 0 and a maximum-value validator of 14. */
  predicate ValidPh(ph: real) { PhMin <= ph <= PhMax }

  /** `tds` is a positive-integer field, which admits zero. */
  predicate ValidTds(tds: int) { tds >= 0 }

  /** The fields of a system that the model validators reject. */
  function SystemFieldErrors(name: string): (e: set<string>)
    ensures e == {} <==> ValidName(name)
    ensures e <= {"name"}
  {
    if ValidName(name) then {} else {"name"}
  }

  /** The measured values that the model validators reject. */
  function MeasurementFieldErrors(ph: real, tds: int): (e: set<string>)
    ensures "ph" in e <==> !ValidPh(ph)
    ensures "tds" in e <==> !ValidTds(tds)
    ensures e <= {"ph", "tds"}
  {
    (if ValidPh(ph) then {} else {"ph"}) + (if ValidTds(tds) then {} else {"tds"})
  }

  // Row order: primary keys and creation times both increase along a table.

  predicate SystemBefore(a: System, b: System) {
    a.id < b.id && a.createdAt < b.createdAt
  }

  predicate MeasurementBefore(a: Measurement, b: Measurement) {
    a.id < b.id && a.createdAt < b.createdAt
  }

  function SystemIds(systems: seq<System>): set<nat> {
    set s | s in systems :: s.id
  }

  /** The integrity of the two tables: ordered rows with distinct keys, the field
      constraints of every stored row, and no measurement whose foreign key
      names a missing system. */
  ghost predicate TablesConsistent(systems: seq<System>, measurements: seq<Measurement>) {
    && Ordered(systems, SystemBefore)
    && Ordered(measurements, MeasurementBefore)
    && (forall s :: s in systems ==> ValidName(s.name) && s.createdAt <= s.updatedAt)
    && (forall m :: m in measurements ==>
          ValidPh(m.ph) && ValidTds(m.tds) && m.system in SystemIds(systems))
  }

  // Row predicates. Each is produced by one function so that every use denotes the same value.

  function HasSystemId(id: nat): System -> bool {
    (s: System) => s.id == id
  }

  function HasMeasurementId(id: nat): Measurement -> bool {
    (m: Measurement) => m.id == id
  }

  function IdIsNot(id: nat): System -> bool {
    (s: System) => s.id != id
  }

  function MeasurementIdIsNot(id: nat): Measurement -> bool {
    (m: Measurement) => m.id != id
  }

  function NotOwnedBy(u: UserId): System -> bool {
    (s: System) => s.owner != u
  }

  function OnSystem(id: nat): Measurement -> bool {
    (m: Measurement) => m.system == id
  }

  function ReferencesOneOf(ids: set<nat>): Measurement -> bool {
    (m: Measurement) => m.system in ids
  }

  /** The system row with primary key `id`. */
  function FindSystem(systems: seq<System>, id: nat): (r: Option<System>)
    ensures r.Some? ==> r.value in systems && r.value.id == id
    ensures r.None? <==> id !in SystemIds(systems)
  {
    match IndexOf(systems, HasSystemId(id))
    case None => None
    case Some(i) => Some(systems[i])
  }

  /** Rewriting a system row without touching its key keeps the set of keys. */
  lemma SystemIdsUpdate(systems: seq<System>, i: nat, s: System)
    requires i < |systems| && s.id == systems[i].id
    ensures SystemIds(systems[i := s]) == SystemIds(systems)
  {
    forall k | k in SystemIds(systems) ensures k in SystemIds(systems[i := s]) {
      var t :| t in systems && t.id == k;
      var j :| 0 <= j < |systems| && systems[j] == t;
      assert systems[i := s][j].id == k;
    }
  }

  /** The owner of the system with primary key `id`, reached through the foreign key. */
  function OwnerOf(systems: seq<System>, id: nat): (r: Option<UserId>)
    ensures r.Some? <==> id in SystemIds(systems)
    ensures r.Some? ==> exists s :: s in systems && s.id == id && s.owner == r.value
  {
    match FindSystem(systems, id)
    case None => None
    case Some(s) => Some(s.owner)
  }

  /** With distinct primary keys, the owner found is the owner of every row with that key. */
  lemma OwnerOfUnique(systems: seq<System>, s: System)
    requires Ordered(systems, SystemBefore) && s in systems
    ensures OwnerOf(systems, s.id) == Some(s.owner)
  {
    FindSystemUnique(systems, s);
  }

  /** With distinct primary keys, the row found for a key is the only row with that key. */
  lemma FindSystemUnique(systems: seq<System>, s: System)
    requires Ordered(systems, SystemBefore) && s in systems
    ensures FindSystem(systems, s.id) == Some(s)
  {
    var i :| 0 <= i < |systems| && systems[i] == s;
    var j := IndexOf(systems, HasSystemId(s.id)).value;
    assert i == j;
  }

  /** The measurement row with primary key `id`. */
  function FindMeasurement(measurements: seq<Measurement>, id: nat): (r: Option<Measurement>)
    ensures r.Some? ==> r.value in measurements && r.value.id == id
    ensures r.None? <==> forall m :: m in measurements ==> m.id != id
  {
    match IndexOf(measurements, HasMeasurementId(id))
    case None => None
    case Some(i) => Some(measurements[i])
  }

  lemma FindMeasurementUnique(measurements: seq<Measurement>, m: Measurement)
    requires Ordered(measurements, MeasurementBefore) && m in measurements
    ensures FindMeasurement(measurements, m.id) == Some(m)
  {
    var i :| 0 <= i < |measurements| && measurements[i] == m;
    var j := IndexOf(measurements, HasMeasurementId(m.id)).value;
    assert i == j;
  }

  /** Appending a system row does not change the owner found for an existing key. */
  lemma OwnerOfAppend(systems: seq<System>, s: System, id: nat)
    requires id in SystemIds(systems)
    ensures OwnerOf(systems + [s], id) == OwnerOf(systems, id)
  {
    IndexOfAppend(systems, s, HasSystemId(id));
  }

  /** Rewriting a system row without touching its key or owner changes no owner lookup. */
  lemma OwnerOfUpdate(systems: seq<System>, i: nat, s: System, id: nat)
    requires i < |systems| && s.id == systems[i].id && s.owner == systems[i].owner
    ensures OwnerOf(systems[i := s], id) == OwnerOf(systems, id)
  {
    IndexOfUpdate(systems, i, s, HasSystemId(id));
  }

  /** A surviving system keeps its owner after other system rows are deleted. */
  lemma OwnerOfSelect(systems: seq<System>, p: System -> bool, id: nat)
    requires Ordered(systems, SystemBefore) && id in SystemIds(Select(systems, p))
    ensures OwnerOf(Select(systems, p), id) == OwnerOf(systems, id)
  {
    SelectOrdered(systems, p, SystemBefore);
    var s :| s in Select(systems, p) && s.id == id;
    OwnerOfUnique(systems, s);
    OwnerOfUnique(Select(systems, p), s);
  }

  /** The measurements whose foreign key names system `id` (its measurement set). */
  function MeasurementsOf(measurements: seq<Measurement>, id: nat): (r: seq<Measurement>)
    ensures forall m :: m in r <==> m in measurements && m.system == id
  {
    Select(measurements, OnSystem(id))
  }

  /** The rows that survive a cascading delete: those whose system still exists. */
  function Cascade(measurements: seq<Measurement>, systems: seq<System>): (r: seq<Measurement>)
    ensures forall m :: m in r <==> m in measurements && m.system in SystemIds(systems)
  {
    Select(measurements, ReferencesOneOf(SystemIds(systems)))
  }

  function RemoveSystem(systems: seq<System>, id: nat): (r: seq<System>)
    ensures forall s :: s in r <==> s in systems && s.id != id
  {
    Select(systems, IdIsNot(id))
  }

  function RemoveOwner(systems: seq<System>, u: UserId): (r: seq<System>)
    ensures forall s :: s in r <==> s in systems && s.owner != u
  {
    Select(systems, NotOwnedBy(u))
  }

  /** Deleting rows of the system table and cascading keeps both tables consistent. */
  lemma CascadeConsistent(systems: seq<System>, measurements: seq<Measurement>, kept: System -> bool)
    requires TablesConsistent(systems, measurements)
    ensures TablesConsistent(Select(systems, kept), Cascade(measurements, Select(systems, kept)))
  {
    SelectOrdered(systems, kept, SystemBefore);
    SelectOrdered(measurements, ReferencesOneOf(SystemIds(Select(systems, kept))), MeasurementBefore);
  }

  /** Deleting a system removes every measurement that references it and no other. */
  lemma DeleteSystemCascades(systems: seq<System>, measurements: seq<Measurement>, id: nat)
    requires TablesConsistent(systems, measurements)
    ensures TablesConsistent(RemoveSystem(systems, id), Cascade(measurements, RemoveSystem(systems, id)))
    ensures forall m :: m in Cascade(measurements, RemoveSystem(systems, id)) <==>
                        m in measurements && m.system != id
    ensures MeasurementsOf(Cascade(measurements, RemoveSystem(systems, id)), id) == []
  {
    var remaining := RemoveSystem(systems, id);
    CascadeConsistent(systems, measurements, IdIsNot(id));
    forall m | m in measurements && m.system != id
      ensures m.system in SystemIds(remaining)
    {
      var s :| s in systems && s.id == m.system;
      assert s in remaining;
    }
    SelectNone(Cascade(measurements, remaining), OnSystem(id));
  }

  /** Deleting a user removes that user's systems and, through them, their measurements;
      nothing belonging to another user is removed. */
  lemma DeleteOwnerCascades(systems: seq<System>, measurements: seq<Measurement>, u: UserId)
    requires TablesConsistent(systems, measurements)
    ensures TablesConsistent(RemoveOwner(systems, u), Cascade(measurements, RemoveOwner(systems, u)))
    ensures forall m :: m in Cascade(measurements, RemoveOwner(systems, u)) <==>
                        m in measurements && OwnerOf(systems, m.system) != Some(u)
  {
    var remaining := RemoveOwner(systems, u);
    CascadeConsistent(systems, measurements, NotOwnedBy(u));
    forall m | m in measurements
      ensures m.system in SystemIds(remaining) <==> OwnerOf(systems, m.system) != Some(u)
    {
      var s :| s in systems && s.id == m.system;
      OwnerOfUnique(systems, s);
      if m.system in SystemIds(remaining) {
        var t :| t in remaining && t.id == m.system;
        OwnerOfUnique(systems, t);
      } else {
        assert s !in remaining;
      }
    }
  }

  // Columns that listings can be ordered by, and the orderings they induce.

  datatype MeasurementColumn =
    | CreatedAtColumn
    | PhColumn
    | TdsColumn
    | WaterTemperatureColumn
    | SystemColumn

  /** The value of a measurement column, on the common scale of the reals
      (a timestamp is a counter value, a foreign key a primary key). */
  function ColumnValue(m: Measurement, c: MeasurementColumn): real {
    match c
    case CreatedAtColumn => m.createdAt as real
    case PhColumn => m.ph
    case TdsColumn => m.tds as real
    case WaterTemperatureColumn => m.waterTemperature
    case SystemColumn => m.system as real
  }

  datatype Direction = Ascending | Descending

  /** "a may come before b" when ordering by column c in direction d. */
  function MeasurementOrder(c: MeasurementColumn, d: Direction): (Measurement, Measurement) -> bool {
    (a: Measurement, b: Measurement) =>
      if d == Ascending then ColumnValue(a, c) <= ColumnValue(b, c)
      else ColumnValue(a, c) >= ColumnValue(b, c)
  }

  lemma MeasurementOrderIsTotalPreorder(c: MeasurementColumn, d: Direction)
    ensures TotalPreorder(MeasurementOrder(c, d))
  {
  }

  datatype SystemOrderColumn = NameColumn | SystemCreatedAtColumn | UpdatedAtColumn

  /** "a may come before b" when ordering systems; names compare by code point. */
  function SystemOrder(c: SystemOrderColumn, d: Direction): (System, System) -> bool {
    (a: System, b: System) =>
      match c
      case NameColumn => if d == Ascending then LexLe(a.name, b.name) else LexLe(b.name, a.name)
      case SystemCreatedAtColumn =>
        if d == Ascending then a.createdAt <= b.createdAt else a.createdAt >= b.createdAt
      case UpdatedAtColumn =>
        if d == Ascending then a.updatedAt <= b.updatedAt else a.updatedAt >= b.updatedAt
  }

  lemma SystemOrderIsTotalPreorder(c: SystemOrderColumn, d: Direction)
    ensures TotalPreorder(SystemOrder(c, d))
  {
    if c == NameColumn {
      forall a: System, b: System ensures SystemOrder(c, d)(a, b) || SystemOrder(c, d)(b, a) {
        LexLeTotal(a.name, b.name);
      }
      forall a: System, b: System, e: System | SystemOrder(c, d)(a, b) && SystemOrder(c, d)(b, e)
        ensures SystemOrder(c, d)(a, e)
      {
        if d == Ascending {
          LexLeTransitive(a.name, b.name, e.name);
        } else {
          LexLeTransitive(e.name, b.name, a.name);
        }
      }
    }
  }

  /** The database: two tables, a clock and the two primary-key sequences. */
  class Store {
    var systems: seq<System>
    var measurements: seq<Measurement>
    var clock: nat
    var nextSystemId: nat
    var nextMeasurementId: nat

    ghost predicate Valid()
      reads this
    {
      && TablesConsistent(systems, measurements)
      && (forall s :: s in systems ==> s.id < nextSystemId && s.updatedAt < clock)
      && (forall m :: m in measurements ==> m.id < nextMeasurementId && m.createdAt < clock)
    }

    /** An empty database; primary keys start at 1. */
    constructor ()
      ensures Valid()
      ensures systems == [] && measurements == []
    {
      systems, measurements := [], [];
      clock := 0;
      nextSystemId, nextMeasurementId := 1, 1;
    }

    /** Inserts a validated system. Both timestamps take the current time. */
    method CreateSystem(owner: UserId, name: string, description: string) returns (r: Result<System>)
      requires Valid()
      modifies this
      ensures Valid()
      ensures r.Failure? <==> !ValidName(name)
      ensures r.Failure? ==> r.error == ValidationError(SystemFieldErrors(name)) && unchanged(this)
      ensures r.Success? ==>
        && r.value == System(old(nextSystemId), owner, name, description, old(clock), old(clock))
        && r.value.id !in SystemIds(old(systems))
        && systems == old(systems) + [r.value]
        && measurements == old(measurements)
    {
      if !ValidName(name) {
        return Failure(ValidationError(SystemFieldErrors(name)));
      }
      var s := System(nextSystemId, owner, name, description, clock, clock);
      OrderedAppend(systems, s, SystemBefore);
      systems := systems + [s];
      nextSystemId := nextSystemId + 1;
      clock := clock + 1;
      r := Success(s);
    }

    /** Saves new writable values into an existing system row. The creation time
        and the owner are kept; the update time is refreshed. */
    method SaveSystem(id: nat, name: string, description: string) returns (r: Result<System>)
      requires Valid() && id in SystemIds(systems)
      modifies this
      ensures Valid()
      ensures r.Failure? <==> !ValidName(name)
      ensures r.Failure? ==> r.error == ValidationError(SystemFieldErrors(name)) && unchanged(this)
      ensures r.Success? ==>
        var i := IndexOf(old(systems), HasSystemId(id)).value;
        && r.value == old(systems)[i].(name := name, description := description, updatedAt := old(clock))
        && r.value.createdAt == old(systems)[i].createdAt
        && r.value.owner == old(systems)[i].owner
        && r.value.updatedAt > old(systems)[i].updatedAt
        && systems == old(systems)[i := r.value]
        && measurements == old(measurements)
    {
      if !ValidName(name) {
        return Failure(ValidationError(SystemFieldErrors(name)));
      }
      var i := IndexOf(systems, HasSystemId(id)).value;
      var s := systems[i].(name := name, description := description, updatedAt := clock);
      assert systems[i] in systems;
      forall j | 0 <= j < i ensures SystemBefore(systems[j], s) {
        assert SystemBefore(systems[j], systems[i]);
      }
      forall j | i < j < |systems| ensures SystemBefore(s, systems[j]) {
        assert SystemBefore(systems[i], systems[j]);
      }
      OrderedUpdate(systems, i, s, SystemBefore);
      SystemIdsUpdate(systems, i, s);
      systems := systems[i := s];
      clock := clock + 1;
      r := Success(s);
    }

    /** Deletes a system row and, by the cascading foreign key, its measurements. */
    method DeleteSystem(id: nat)
      requires Valid()
      modifies this
      ensures Valid()
      ensures systems == RemoveSystem(old(systems), id)
      ensures measurements == Cascade(old(measurements), systems)
      ensures forall m :: m in measurements <==> m in old(measurements) && m.system != id
      ensures clock == old(clock)
      ensures nextSystemId == old(nextSystemId) && nextMeasurementId == old(nextMeasurementId)
    {
      DeleteSystemCascades(systems, measurements, id);
      systems := RemoveSystem(systems, id);
      measurements := Cascade(measurements, systems);
    }

    /** Deleting a user cascades to the user's systems and from them to their measurements. */
    method DeleteOwner(u: UserId)
      requires Valid()
      modifies this
      ensures Valid()
      ensures systems == RemoveOwner(old(systems), u)
      ensures measurements == Cascade(old(measurements), systems)
      ensures forall m :: m in measurements <==>
                          m in old(measurements) && OwnerOf(old(systems), m.system) != Some(u)
      ensures clock == old(clock)
      ensures nextSystemId == old(nextSystemId) && nextMeasurementId == old(nextMeasurementId)
    {
      DeleteOwnerCascades(systems, measurements, u);
      systems := RemoveOwner(systems, u);
      measurements := Cascade(measurements, systems);
    }

    /** The fields of a measurement write that full validation rejects: the measured
        values, and a foreign key that names no system. */
    function MeasurementErrors(system: nat, ph: real, tds: int): (e: set<string>)
      reads this
      ensures e == {} <==> ValidPh(ph) && ValidTds(tds) && system in SystemIds(systems)
    {
      MeasurementFieldErrors(ph, tds) + (if system in SystemIds(systems) then {} else {"system"})
    }

    /** Inserts a validated measurement, stamped with the current time. */
    method CreateMeasurement(system: nat, ph: real, tds: int, waterTemperature: real)
      returns (r: Result<Measurement>)
      requires Valid()
      modifies this
      ensures Valid()
      ensures r.Failure? <==> old(MeasurementErrors(system, ph, tds)) != {}
      ensures r.Failure? ==> r.error == ValidationError(old(MeasurementErrors(system, ph, tds))) && unchanged(this)
      ensures r.Success? ==>
        && r.value == Measurement(old(nextMeasurementId), system, ph, tds, waterTemperature, old(clock))
        && measurements == old(measurements) + [r.value]
        && systems == old(systems)
    {
      var errors := MeasurementErrors(system, ph, tds);
      if errors != {} {
        return Failure(ValidationError(errors));
      }
      var m := Measurement(nextMeasurementId, system, ph, tds, waterTemperature, clock);
      OrderedAppend(measurements, m, MeasurementBefore);
      measurements := measurements + [m];
      nextMeasurementId := nextMeasurementId + 1;
      clock := clock + 1;
      r := Success(m);
    }

    /** Saves new values into an existing measurement row; its key and creation time are kept. */
    method SaveMeasurement(id: nat, system: nat, ph: real, tds: int, waterTemperature: real)
      returns (r: Result<Measurement>)
      requires Valid() && IndexOf(measurements, HasMeasurementId(id)).Some?
      modifies this
      ensures Valid()
      ensures r.Failure? <==> old(MeasurementErrors(system, ph, tds)) != {}
      ensures r.Failure? ==> r.error == ValidationError(old(MeasurementErrors(system, ph, tds))) && unchanged(this)
      ensures r.Success? ==>
        var i := IndexOf(old(measurements), HasMeasurementId(id)).value;
        && r.value == old(measurements)[i].(system := system, ph := ph, tds := tds,
                                            waterTemperature := waterTemperature)
        && r.value.createdAt == old(measurements)[i].createdAt
        && measurements == old(measurements)[i := r.value]
        && systems == old(systems) && clock == old(clock)
    {
      var errors := MeasurementErrors(system, ph, tds);
      if errors != {} {
        return Failure(ValidationError(errors));
      }
      var i := IndexOf(measurements, HasMeasurementId(id)).value;
      var m := measurements[i].(system := system, ph := ph, tds := tds, waterTemperature := waterTemperature);
      assert measurements[i] in measurements;
      forall j | 0 <= j < i ensures MeasurementBefore(measurements[j], m) {
        assert MeasurementBefore(measurements[j], measurements[i]);
      }
      forall j | i < j < |measurements| ensures MeasurementBefore(m, measurements[j]) {
        assert MeasurementBefore(measurements[i], measurements[j]);
      }
      OrderedUpdate(measurements, i, m, MeasurementBefore);
      measurements := measurements[i := m];
      r := Success(m);
    }

    /** Deletes the measurement row with primary key `id`, if there is one. */
    method DeleteMeasurement(id: nat)
      requires Valid()
      modifies this
      ensures Valid()
      ensures measurements == Select(old(measurements), MeasurementIdIsNot(id))
      ensures forall m :: m in measurements <==> m in old(measurements) && m.id != id
      ensures systems == old(systems) && clock == old(clock)
      ensures nextSystemId == old(nextSystemId) && nextMeasurementId == old(nextMeasurementId)
    {
      SelectOrdered(measurements, MeasurementIdIsNot(id), MeasurementBefore);
      measurements := Select(measurements, MeasurementIdIsNot(id));
    }
  }
}
