# Hydroponic manager: a verified model of its store, ownership guard and query layer

The hydroponic manager is a Django REST Framework service. A user owns hydroponic
*systems*, and each system holds *measurements*: pH, total dissolved solids (TDS) and
water temperature. This project models three parts of it in Dafny and proves properties
of the model:

- the two database tables and their constraints (`hydroponic_manager/models.py`);
- the two viewsets, with their per-user querysets, the measurement filter, ordering and
  serializer choice (`hydroponic_manager/views.py`);
- the serializers, with their field sets, the system view (a measurement count and the ten
  newest measurements) and the ownership check on measurement writes
  (`hydroponic_manager/serializers.py`).

Files:

- `common.dfy`: `Option`, `Result`, and the three failure kinds the requests produce. These
  are a validation error carrying the set of rejected fields, not found, and
  unauthenticated.
- `sequences.dfy`: the query primitives the ORM uses, over rows kept in insertion order.
  `Select` is a WHERE clause, `SortBy` an ORDER BY (an insertion sort, proved to be a sorted
  permutation), `Take` a LIMIT and `IndexOf` a key lookup.
- `models.dfy`: the `System` and `Measurement` records and the field validators. The
  cascading foreign keys are pure functions over the tables. The class `Store` is the
  database: two tables, a clock and two primary-key counters, with methods that insert,
  save and delete rows in place.
- `serializers.dfy`: representations are dictionaries from field name to `Value`. This file
  holds the read and write serializers of a measurement, the imperative
  `to_representation` of a system, and the validation of measurement and system writes.
- `views.dfy`: visibility (`get_queryset` and `get_object`), the filter set as a table from
  query-parameter name to (column, lookup), ordering, serializer choice, and isolation
  between users.
- `viewsets.dfy`: the requests (list, retrieve, create, update, partial update, destroy).
  Each runs the guards in DRF's order: authentication, then the object lookup in the
  caller's queryset, then validation. Only then does it write to the `Store`.
- `examples.dfy`: the scenarios of the repository's test suites, each stated as a request sequence against a fresh store with its outcome proved.

Modelling decisions:

- The authenticated user is a parameter of every request. `None` is an anonymous caller,
  rejected because of `IsAuthenticated`.
- Timestamps come from a counter that ticks on every save that stamps a row. Primary keys
  and creation times therefore strictly increase along each table, so no claim depends on
  tie-breaking.
- pH and temperatures are `real`; the code only compares them.
- The store's write methods validate as `full_clean` does. The serializers compute the full
  set of failing fields, as DRF reports every failing field at once.
- Every detail request (retrieve, the `details` action, update, partial update, destroy)
  looks its object up in the filtered queryset, as `get_object` does, so it takes the
  request's filter parameters too.

## Model

| member | source | states |
|---|---|---|
| Models.SystemFieldErrors | hydroponic_manager/models.py:8 | a system name is rejected exactly when it is empty or longer than 100 characters, and only `name` can be rejected |
| Models.MeasurementFieldErrors | hydroponic_manager/models.py:16-22 | `ph` is rejected exactly when outside [0, 14], `tds` exactly when negative, and no other field is checked |
| Models.FindSystem | hydroponic_manager/models.py:6-11 | the system row found has the requested primary key; none is found exactly when no row has it |
| Models.FindSystemUnique | hydroponic_manager/models.py:6-11 | with distinct primary keys, the lookup by a row's key returns that row |
| Models.FindMeasurement | hydroponic_manager/models.py:14-24 | the measurement found has the requested key; none is found exactly when no row has it |
| Models.FindMeasurementUnique | hydroponic_manager/models.py:14-24 | with distinct keys, the lookup by a row's key returns that row |
| Models.OwnerOf | hydroponic_manager/models.py:7 | the owner reached through a foreign key exists exactly when the system exists, and is that system's owner |
| Models.OwnerOfUnique | hydroponic_manager/models.py:7 | the owner found for a stored system's key is that system's owner |
| Models.OwnerOfAppend | hydroponic_manager/models.py:7 | inserting a system does not change the owner of an existing one |
| Models.OwnerOfUpdate | hydroponic_manager/models.py:7 | saving a system without changing its key or owner changes no owner lookup |
| Models.OwnerOfSelect | hydroponic_manager/models.py:7 | a system that survives a delete keeps its owner |
| Models.SystemIdsUpdate | hydroponic_manager/models.py:6-11 | saving a row keeps the set of primary keys |
| Models.MeasurementsOf | hydroponic_manager/models.py:15 | the measurement set of system `id` holds exactly the measurements whose foreign key is `id` |
| Models.Cascade | hydroponic_manager/models.py:15 | after a cascade exactly the measurements whose system still exists remain |
| Models.RemoveSystem | hydroponic_manager/models.py:6-11 | deleting by key keeps exactly the other systems |
| Models.RemoveOwner | hydroponic_manager/models.py:7 | deleting a user keeps exactly the systems of other users |
| Models.CascadeConsistent | hydroponic_manager/models.py:15 | deleting system rows and cascading leaves no dangling foreign key and keeps every constraint |
| Models.DeleteSystemCascades | hydroponic_manager/models.py:15 | deleting a system removes exactly the measurements that reference it, and the tables stay consistent |
| Models.DeleteOwnerCascades | hydroponic_manager/models.py:7-15 | deleting a user removes exactly the measurements of that user's systems, and the tables stay consistent |
| Models.MeasurementOrderIsTotalPreorder | hydroponic_manager/views.py:111 | ordering measurements by any allowed field, in either direction, is total and transitive |
| Models.SystemOrderIsTotalPreorder | hydroponic_manager/views.py:80 | ordering systems by name, created_at or updated_at, in either direction, is total and transitive |
| Models.Store.constructor | hydroponic_manager/models.py:6-24 | an empty database satisfies the table invariant |
| Models.Store.CreateSystem | hydroponic_manager/models.py:6-11 | a system with a valid name is appended under a fresh key, with both timestamps set to the current time; an invalid name is rejected on `name` and changes nothing |
| Models.Store.SaveSystem | hydroponic_manager/models.py:10-11 | saving rewrites name and description in place, keeps owner and created_at, and sets a strictly later updated_at |
| Models.Store.DeleteSystem | hydroponic_manager/models.py:15 | the system row is removed, and so is exactly every measurement that references it |
| Models.Store.DeleteOwner | hydroponic_manager/models.py:7-15 | a user's systems are removed, and so is exactly every measurement on them |
| Models.Store.MeasurementErrors | hydroponic_manager/models.py:15-22 | a measurement write is clean exactly when pH is in range, TDS is non-negative and the foreign key names a stored system |
| Models.Store.CreateMeasurement | hydroponic_manager/models.py:14-24 | a clean measurement is appended under a fresh key and stamped with the current time; an unclean one is rejected with its failing fields and changes nothing |
| Models.Store.SaveMeasurement | hydroponic_manager/models.py:14-24 | saving rewrites the value fields in place and keeps the key and created_at |
| Models.Store.DeleteMeasurement | hydroponic_manager/models.py:14 | exactly the measurement with that key is removed |
| Sequences.Select | hydroponic_manager/views.py:85-87 | a WHERE clause keeps exactly the rows that satisfy it, in order |
| Sequences.SortBy | hydroponic_manager/serializers.py:26 | ORDER BY returns a permutation of its input, ordered by the key |
| Sequences.Take | hydroponic_manager/serializers.py:26 | a LIMIT of n keeps the first min(n, length) rows, so no row more often than the input holds it |
| Sequences.TakeOrdered | hydroponic_manager/serializers.py:26 | a LIMIT of an ordered sequence is ordered and keeps its first n rows |
| Serializers.SystemWritableFieldsAreNameAndDescription | hydroponic_manager/serializers.py:19-21 | of the system fields only `name` and `description` are writable; `owner`, `created_at` and `updated_at` are not |
| Serializers.MeasurementRepresentation | hydroponic_manager/serializers.py:6-10 | a measurement is read as exactly {id, ph, tds, water_temperature, created_at}, each holding the stored value |
| Serializers.MeasurementCreateRepresentation | hydroponic_manager/serializers.py:32-35 | the write serializer shows exactly {system, ph, tds, water_temperature} |
| Serializers.Representations | hydroponic_manager/serializers.py:25-28 | a many-serializer shows each measurement of the list in order |
| Serializers.LatestMeasurements | hydroponic_manager/serializers.py:26 | the system view's list is ordered newest first and is a sub-multiset of the system's measurements |
| Serializers.LatestMeasurementsAreTheNewest | hydroponic_manager/serializers.py:25-28 | the list holds min(10, n) of the system's n measurements, only that system's and none more often than stored, newest first, and no measurement of that system that was left out is newer than one shown |
| Serializers.SystemViewCountAndList | hydroponic_manager/serializers.py:14-28 | in a system view the list's length is min(count, 10), and it is shorter than the count exactly when the count exceeds 10 |
| Serializers.SystemRepresentation | hydroponic_manager/serializers.py:23-29 | `to_representation` yields exactly the eight system fields, each holding the model's value; the count is the size of the measurement set and the list the ten newest |
| Serializers.SystemFieldsMapOverwritten | hydroponic_manager/serializers.py:24-25 | overwriting `latest_measurements` in the model serializer's dictionary replaces that entry and keeps the keys and every other entry |
| Serializers.ValidateSystem | hydroponic_manager/serializers.py:37-40 | a system is accepted exactly when the requesting user owns it, is returned unchanged, and otherwise fails with a validation error on `system` |
| Serializers.MeasurementFieldChecks | hydroponic_manager/serializers.py:32-40 | each write field is reported exactly when it is rejected |
| Serializers.RejectedMeasurementFieldsByField | hydroponic_manager/serializers.py:32-40 | the rejected fields are the union of the four per-field verdicts |
| Serializers.ValidateMeasurementData | hydroponic_manager/serializers.py:32-40 | a measurement write fails exactly when some write field is rejected, with every such field reported; otherwise it yields the supplied values and ignores every other key |
| Serializers.ValidatedMeasurementData | hydroponic_manager/serializers.py:37-40 | validated data names a system of the requesting user and carries pH in [0, 14] and TDS at least 0; a full write supplies all four fields |
| Serializers.UpdateMeasurementFields | hydroponic_manager/serializers.py:32-35 | an update never changes a measurement's key or created_at |
| Serializers.UpdatedMeasurementTakesSuppliedValues | hydroponic_manager/serializers.py:32-40 | a validated update takes exactly the supplied values, keeps the omitted ones, and leaves the measurement valid and on one of the user's systems |
| Serializers.MeasurementWriteIgnoresOtherKeys | hydroponic_manager/serializers.py:35 | keys outside {system, ph, tds, water_temperature}, `id` and `created_at` among them, have no effect on a write |
| Serializers.MeasurementCreateRepresentationRoundTrip | hydroponic_manager/serializers.py:32-40 | what the write serializer shows of a valid measurement of the user's is accepted back as a full write with the same values |
| Serializers.ValidateSystemData | hydroponic_manager/serializers.py:13-21 | a system write fails exactly when `name` is missing (in a full write), not text or invalid, or `description` is not text, reporting exactly those fields; otherwise it yields the supplied values |
| Serializers.SystemWriteIgnoresOtherKeys | hydroponic_manager/serializers.py:21 | `owner`, the timestamps and every other read-only or unknown key have no effect on a system write |
| Serializers.UpdateSystemFields | hydroponic_manager/serializers.py:21 | a system update keeps the key, the owner and both timestamps |
| Serializers.UpdatedSystemTakesSuppliedValues | hydroponic_manager/serializers.py:19-21 | a validated system update takes exactly the supplied name and description, keeps the omitted ones, and leaves a valid name |
| Views.VisibleSystems | hydroponic_manager/views.py:83-87 | a user's system queryset holds exactly the systems that user owns |
| Views.VisibleMeasurements | hydroponic_manager/views.py:114-118 | a user's measurement queryset holds exactly the measurements whose system that user owns |
| Views.VisibleMeasurementsJoin | hydroponic_manager/views.py:116-118 | the queryset is the join `system__owner = user`: a measurement is in it exactly when a row of its system owned by the user exists, and never when its system belongs to someone else |
| Views.VisibleSetsAreDisjoint | hydroponic_manager/views.py:83-118 | two different users never see the same system or the same measurement |
| Views.VisibleSystem | hydroponic_manager/views.py:78-87 | the object lookup searches the filtered queryset: it finds a system with that key that the caller owns and that passes the filter parameters, and finds none exactly when no such system exists |
| Views.VisibleMeasurement | hydroponic_manager/views.py:109-118 | the object lookup searches the filtered queryset: it finds a measurement with that key on one of the caller's systems that passes the filter parameters, and finds none exactly when no such measurement exists |
| Views.VisibleObjectIsTheRow | hydroponic_manager/views.py:78-118 | in a consistent store, a lookup succeeds exactly when the row exists, belongs to the caller and passes the filter parameters, and then yields that row |
| Views.SystemFilterIsExact | hydroponic_manager/views.py:78 | `filterset_fields` match exactly: without parameters every system passes, `name` or `created_at` alone keeps the systems equal to it in that field, and both together combine by AND |
| Views.FilterMeasurements | hydroponic_manager/views.py:14-65 | the filter keeps exactly the measurements that satisfy every present parameter's clause |
| Views.MeasurementFilterEntries | hydroponic_manager/views.py:17-65 | the filter set has the eight declared bounds and the exact, lt and gt lookups on ph, tds and water_temperature, plus exact on system, each on its field |
| Views.MeasurementFilterNames | hydroponic_manager/views.py:14-65 | the filter recognises exactly the eight declared bounds and the ten generated lookups, and the declared ones are exactly the inclusive bounds |
| Views.MatchesClauses | hydroponic_manager/views.py:17-65 | a measurement passes exactly when every present parameter's clause holds: "min" and "after" are inclusive lower bounds, "max" and "before" inclusive upper bounds, lt and gt strict, a bare field name equality |
| Views.MatchesImpliesClauses | hydroponic_manager/views.py:17-65 | passing the filter implies each written-out clause |
| Views.ClausesImplyMatches | hydroponic_manager/views.py:17-65 | the written-out clauses together imply passing the filter |
| Views.FilterWithoutClausesIsIdentity | hydroponic_manager/views.py:14-65 | with no parameter that names a filter, the visible set comes back unchanged |
| Views.FilterConjunction | hydroponic_manager/views.py:14-65 | parameters combine by AND: filtering by two disjoint groups at once equals filtering by one group and then the other |
| Views.MeasurementOrderingColumn | hydroponic_manager/views.py:111 | the measurement ordering fields are exactly created_at, ph, tds and water_temperature; the foreign key `system` is not one |
| Views.SystemOrderingColumn | hydroponic_manager/views.py:80 | the system ordering fields are exactly name, created_at and updated_at |
| Views.MeasurementListOrder | hydroponic_manager/views.py:111-112 | an absent or disallowed ordering field falls back to `-created_at` |
| Views.MeasurementOrderingHonoured | hydroponic_manager/views.py:111 | an allowed field is honoured: the bare name orders ascending by its column, the name with `-` in front descending |
| Views.SystemListOrder | hydroponic_manager/views.py:80-81 | an absent or disallowed ordering field falls back to `-created_at` |
| Views.SystemOrderingHonoured | hydroponic_manager/views.py:80 | an allowed system field is honoured, ascending as a bare name and descending with `-` in front |
| Views.MeasurementListing | hydroponic_manager/views.py:110-118 | the listing is a permutation of the filtered queryset, ordered by the effective ordering |
| Views.MeasurementListingContents | hydroponic_manager/views.py:110-118 | the listing holds exactly the caller's measurements that match, and by default newest first |
| Views.SystemListing | hydroponic_manager/views.py:78-87 | the listing is a permutation of the caller's matching systems, ordered by the effective ordering |
| Views.SystemListingContents | hydroponic_manager/views.py:78-87 | the listing holds exactly the caller's systems that match, and by default newest first |
| Views.SerializerFor | hydroponic_manager/views.py:120-129 | create, update and partial update use the write serializer; list, retrieve and destroy the read one |
| Views.ResponseFields | hydroponic_manager/views.py:120-129 | create, update and partial update respond with the write fields without `id`; every other action responds with the read fields |
| Views.SameOwnersSameVisibleMeasurements | hydroponic_manager/views.py:114-118 | measurements whose systems keep their owners stay visible to the same users |
| Views.AppendSystemIsolated | hydroponic_manager/views.py:89-91 | creating a system for one user changes nothing any other user sees |
| Views.UpdateSystemIsolated | hydroponic_manager/views.py:83-87 | saving a user's system, with key and owner kept, changes nothing any other user sees |
| Views.RemoveSystemIsolated | hydroponic_manager/views.py:83-87 | deleting a user's system, with the cascade, changes nothing any other user sees |
| Views.AppendMeasurementIsolated | hydroponic_manager/serializers.py:37-40 | adding a measurement to a user's system changes nothing any other user sees |
| Views.UpdateMeasurementIsolated | hydroponic_manager/views.py:114-118 | rewriting a user's measurement into another of that user's changes nothing any other user sees |
| Views.RemoveMeasurementIsolated | hydroponic_manager/views.py:114-118 | deleting a user's measurement changes nothing any other user sees |
| ViewSets.ListSystems | hydroponic_manager/views.py:76-87 | an anonymous caller is refused; otherwise every system of the listing is shown by the system view, in order |
| ViewSets.RetrieveSystem | hydroponic_manager/views.py:93-98 | an anonymous caller is refused, a system outside the caller's filtered queryset is not found, and otherwise the system view of that system is returned |
| ViewSets.CreateSystem | hydroponic_manager/views.py:89-91 | a valid write appends one system whose owner is the caller, whatever owner was sent, with the supplied name and description (blank by default); the response is its system view, an invalid write changes nothing, and no other user's view changes |
| ViewSets.UpdateSystem | hydroponic_manager/views.py:83-87 | the caller's system is rewritten in place with the validated fields and a later updated_at; a foreign, missing or filtered-out system is not found; an invalid write changes nothing; no other user's view changes |
| ViewSets.DestroySystem | hydroponic_manager/views.py:83-87 | deleting the caller's system removes it and exactly its measurements; a foreign, missing or filtered-out system is not found and nothing changes; no other user's view changes |
| ViewSets.ListMeasurements | hydroponic_manager/views.py:109-118 | an anonymous caller is refused; otherwise the response shows, with the read serializer, exactly the caller's measurements that pass the filter, in the effective order |
| ViewSets.RetrieveMeasurement | hydroponic_manager/views.py:114-129 | a measurement outside the caller's filtered queryset is not found; otherwise it is shown with the read fields |
| ViewSets.CreateMeasurement | hydroponic_manager/serializers.py:32-40 | a write is refused exactly when some field is rejected, including a system the caller does not own, and then nothing changes; otherwise one measurement with the supplied values is appended to the caller's system, whose count grows by one, and it is shown with the write fields |
| ViewSets.UpdateMeasurement | hydroponic_manager/views.py:114-129 | the caller's measurement is rewritten in place with the validated fields and stays on one of the caller's systems; a foreign or filtered-out one is not found; an invalid write changes nothing; no other user's view changes |
| ViewSets.DestroyMeasurement | hydroponic_manager/views.py:114-118 | the caller's measurement is removed and no other row is; a foreign, missing or filtered-out one is not found and nothing changes |
| Scenarios.PhFifteenIsRejected | hydroponic_manager/tests/test_models.py:55-63 | a measurement with pH 15 fails validation on `ph`, and nothing is stored |
| Scenarios.PhMinListing | hydroponic_manager/tests/test_views.py:70-87 | with measurements of pH 6.5 and 7.5, `ph_min=7.0` lists exactly the 7.5 one |
| Scenarios.PhMinFilter | hydroponic_manager/tests/test_views.py:70-87 | the listing request returns one item, with pH 7.5 |
| Scenarios.CreateThroughViewSets | hydroponic_manager/tests/test_views.py:18-27 | a system created through its viewset has the sent name and description and is owned by the caller even though another owner was sent, and a measurement created on it holds the sent values |
| Scenarios.PatchThenFetch | hydroponic_manager/tests/test_views.py:89-101 | after a partial update of pH to 7.5, fetching the measurement shows pH 7.5 |
| Scenarios.DeleteLeavesNone | hydroponic_manager/tests/test_views.py:103-113 | deleting the only measurement leaves none |
| Scenarios.StrangerCannotAdd | hydroponic_manager/serializers.py:37-40 | another user's write naming the owner's system fails on `system`, and the system's count stays 1 |
| Scenarios.StrangerCannotUpdate | hydroponic_manager/views.py:114-118 | another user's update of the owner's measurement is not found |
| Scenarios.FifteenMeasurementsShowTen | hydroponic_manager/serializers.py:14-28 | a system with 15 measurements shows the eight system fields, a count of 15 and a list of 10 |
| Scenarios.ListTwoSystems | hydroponic_manager/tests/test_views.py:29-43 | a user with two systems lists two |

## Left out

- Authentication mechanics (registration, JWT login) are left out. The user is a parameter of every request, and `None` stands for an anonymous caller.
- The admin configuration is presentation only.
- HTTP status codes, URL routing, pagination, and response and error message texts are left out; the ownership message is modelled only as a validation error on `system`.
- `search_fields = ['name', 'description']` on the system viewset is left out, because it depends on the search backend's matching, which the code does not show.
- Malformed filter values (a non-numeric `ph_min`, say) are left out: parsing them happens inside the filter library. Filter values arrive as numbers, and a date bound is compared with the counter timestamp.
- The system filter on `name` and `created_at` is modelled as exact matching only.
- Name ordering compares names by code point (`LexLe`). The database orders by its collation, which can differ for case and accented letters.
- Ordering by several comma-separated terms is left out. `ordering` is one term with an optional `-`, and an unknown field falls back to the default.
- Tie-breaking between equal sort keys is left out. `SortBy` promises an ordered permutation and no order among equal keys. Creation times are distinct, so the default orders are total.
- Float semantics and `PositiveIntegerField`'s upper database bound are left out. pH and temperatures are reals, and TDS is an unbounded non-negative integer.
- Input coercion beyond type checking is left out: string-to-number conversion, whitespace trimming and JSON parsing. A float field takes an integer or a real, an integer field an integer, and a text field text.
- `created_at` and `updated_at` of a new system take the same tick. The clock is a counter passed through the store, not wall time.
- Measurements have no `updated_at`. Saving one refreshes no timestamp, and nothing more is claimed.
- Writes through the ORM that skip validation are left out. `objects.create` and `save()` run no field validators, so code calling them directly can store a pH of 15 or a blank name. The store's methods validate as `full_clean` would, so the pH, TDS and name constraints kept by `TablesConsistent` hold for the requests and the store's methods, not for arbitrary ORM code.
- Concurrency and transaction isolation are out of scope.
- The `__str__` representations exercised by the model tests are left out; the models define none.
- Models.Store.SaveSystem, Models.Store.SaveMeasurement: they require a stored key. Saving an instance that has no row yet is an insert, which `CreateSystem` and `CreateMeasurement` model.
- A `system` filter value that names no system is left out. The filter library rejects it as an invalid choice; the model compares keys and lists nothing.
