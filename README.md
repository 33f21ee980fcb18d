# DynamoDB single-table key scheme, in Dafny

This project models the core of `dynamodb-table-design`: one organisation's tree stored in a single key-value table, and read back through key lookups and prefix scans.

The tree runs organisation → departments → manager and projects → employees → tasks. Every organisation, department, manager, project and employee becomes one item under the partition key `ORG#<organisation name>`; tasks are stored inside their employee's item. Its sort key is a type tag followed by the entity's name: `METADATA`, `DEPT#…`, `MGR#…`, `PROJ#…` or `EMP#…`.

The model has two parts.

- **The write path** (`insert_sample_data`) is imperative. It walks the tree in nested loops and issues one put per organisation, department, manager, project and employee.
  - The table is a class, `Store.KeyValueTable`, whose `items` field is a map from (PK, SK) to item.
  - `PutItem` overwrites the entry at the item's key.
  - `InsertRecord.InsertSampleData` is proved to leave the table equal to `Inserted(old table, org)`, the fold of the flattener's puts in traversal order.
  - The source's three nested loops are three methods in the model. `InsertSampleData` loops over departments and calls `InsertProjects`, which loops over projects and calls `InsertEmployees`. They issue the same puts in the same order as the source.
- **The read path** (`get_organization_metadata`, `get_department` and the four `get_all_*` scans) consists of functions of the table.
  - A lookup returns `Some(item)` or `None`. `None` stands for the empty dict the source returns.
  - A scan returns the set of stored items in the partition whose sort key starts with the tag. This is the `begins_with(SK, :sk)` key condition, written as Dafny's sequence prefix `<=`.

The properties are proved over the function `Inserted`, in five files:

- `keys.dfy`: the key scheme. It covers the partition key, injectivity of the tagged sort keys, and the fact that the five kinds never overlap.
- `store.dfy`: the table, put-as-overwrite (last write wins), and prefix scans with their exactness.
- `insert_properties.dfy`: what the flattener does.
  - The puts of each kind, in traversal order.
  - Which item stays at each key.
  - Other partitions stay untouched.
  - Inserting twice leaves the same table as inserting once.
  - The number of keys written.
  - Scans after insertion.
  - Reference lists name keys that exist.
- `round_trip.dfy`: flatten, then read back through the query functions.
- `sample_data.dfy`: the repository's sample organisation (`CodexOrg`) as a concrete scenario.

The flattener's puts give the same table in any order when names are unique per entity type. When two entities of one type share a name, they share a key; if they build different items, the later put in traversal order wins (`InsertProperties.EntityStored`). The model therefore keeps the source's sequential order.

## Model

| member | source | states |
|---|---|---|
| `Keys.OrgId` | src/dynamodb-crud/handler/insert_record.py:13 | the partition key is `ORG#` followed by the organisation's name, and the name can be read back from it |
| `Keys.TaggedKeyInjective` | src/dynamodb-crud/handler/insert_record.py:26 | a tagged sort key determines the name: `tag + a == tag + b` exactly when `a == b` |
| `Keys.KindsExclusive` | src/dynamodb-crud/handler/query_records.py:21-77 | a sort key starting with one of `METADATA`, `DEPT#`, `MGR#`, `PROJ#`, `EMP#` starts with no other of them |
| `Keys.TaggedKind` | src/dynamodb-crud/handler/insert_record.py:26-61 | the sort key built from a tag is classified as that tag's kind |
| `Store.KeyValueTable.constructor` | src/dynamodb-crud/handler/insert_record.py:8 | a new table is empty and satisfies the table invariant |
| `Store.KeyValueTable.PutItem` | src/dynamodb-crud/handler/insert_record.py:16-22 | `put_item` replaces the entry at the item's key, keeps every other entry, and keeps the invariant that each item is stored under its own key |
| `Store.ApplyKeys` | src/dynamodb-crud/handler/insert_record.py:16-69 | after a sequence of puts, the keys present are the old keys plus every key a put addressed |
| `Store.ApplyAppend` | src/dynamodb-crud/handler/insert_record.py:16-69 | issuing two batches of puts one after the other equals issuing their concatenation |
| `Store.LastWriteWins` | src/dynamodb-crud/handler/insert_record.py:16-69 | a put that no later put overwrites is what the table holds at its key |
| `Store.Untouched` | src/dynamodb-crud/handler/insert_record.py:16-69 | a key no put addresses keeps its old entry, or stays absent |
| `Store.ApplyOverrides` | src/dynamodb-crud/handler/insert_record.py:16-69 | the table after the puts is the old table overridden by the entries the puts alone produce |
| `Store.ApplyIdempotent` | src/dynamodb-crud/handler/insert_record.py:16-69 | repeating the same puts leaves the table as one round of them does |
| `Store.ApplyStored` | src/dynamodb-crud/handler/insert_record.py:16-69 | puts keep the invariant that every item is stored under its own key |
| `Store.KeysOfSize` | src/dynamodb-crud/handler/insert_record.py:16-69 | a sequence of puts addresses at most one key per put, and exactly one when its keys are distinct |
| `Store.OnlyAgrees` | src/dynamodb-crud/handler/insert_record.py:16-69 | at a key whose sort key starts with a prefix, the table depends only on the puts with that prefix, in their order |
| `Store.Query` | src/dynamodb-crud/handler/query_records.py:23-30 | a `PK = :pk AND begins_with(SK, :sk)` query returns every stored item of the partition whose sort key starts with the prefix, and nothing else |
| `Store.QuerySize` | src/dynamodb-crud/handler/query_records.py:30 | a scan returns one item per matching key, so no item is returned twice |
| `QueryRecords.GetItem` | src/dynamodb-crud/handler/query_records.py:12-18 | `get_item` returns the stored item exactly when the key is present, and the empty result (`None`) otherwise |
| `QueryRecords.GetOrganizationMetadata` | src/dynamodb-crud/handler/query_records.py:10-18 | returns the item at `(org_id, METADATA)` if present, and the empty result otherwise, never an error |
| `QueryRecords.GetDepartment` | src/dynamodb-crud/handler/query_records.py:33-41 | returns the item at `(org_id, DEPT#name)` if present, and the empty result otherwise |
| `QueryRecords.GetAllDepartments` | src/dynamodb-crud/handler/query_records.py:21-30 | returns exactly the stored items of the partition whose sort key starts with `DEPT#` |
| `QueryRecords.GetAllProjects` | src/dynamodb-crud/handler/query_records.py:44-53 | returns exactly the stored items of the partition whose sort key starts with `PROJ#` |
| `QueryRecords.GetAllEmployees` | src/dynamodb-crud/handler/query_records.py:56-65 | returns exactly the stored items of the partition whose sort key starts with `EMP#` |
| `QueryRecords.GetAllManagers` | src/dynamodb-crud/handler/query_records.py:68-77 | returns exactly the stored items of the partition whose sort key starts with `MGR#` |
| `QueryRecords.ScansDisjoint` | src/dynamodb-crud/handler/query_records.py:24-27 | scans for two different kinds never return the same item |
| `QueryRecords.ListQueriesPartition` | src/dynamodb-crud/handler/query_records.py:21-77 | the four list queries return pairwise disjoint results, and the metadata item is in none of them |
| `QueryRecords.EmptyPartition` | src/dynamodb-crud/handler/query_records.py:10-77 | in a partition holding nothing, both lookups return the empty result and all four scans return the empty set |
| `InsertRecord.MetadataItem` | src/dynamodb-crud/handler/insert_record.py:16-22 | the organisation's item is written at `(ORG#name, METADATA)` |
| `InsertRecord.DepartmentItem` | src/dynamodb-crud/handler/insert_record.py:26-33 | a department's item is written at `(pk, DEPT#name)` |
| `InsertRecord.ManagerItem` | src/dynamodb-crud/handler/insert_record.py:36-45 | a manager's item is written at `(pk, MGR#name)` |
| `InsertRecord.ProjectItem` | src/dynamodb-crud/handler/insert_record.py:49-57 | a project's item is written at `(pk, PROJ#name)` |
| `InsertRecord.EmployeeItem` | src/dynamodb-crud/handler/insert_record.py:61-69 | an employee's item is written at `(pk, EMP#name)` |
| `InsertRecord.InsertSampleData` | src/dynamodb-crud/handler/insert_record.py:11-69 | the table afterwards is the old table after all the flattener's puts in traversal order (metadata; then per department its item, its manager, and each project followed by its employees), and the table invariant is kept |
| `InsertRecord.InsertProjects` | src/dynamodb-crud/handler/insert_record.py:48-69 | the loop over one department's projects applies each project's put followed by its employees' puts, in input order |
| `InsertRecord.InsertEmployees` | src/dynamodb-crud/handler/insert_record.py:60-69 | the loop over one project's employees applies one put per employee, in input order |
| `InsertProperties.OrganizationWritesOfKind` | src/dynamodb-crud/handler/insert_record.py:11-69 | the flattener's puts of each kind are exactly that kind's items in traversal order: the metadata item, or one item per department, manager, project or employee |
| `InsertProperties.EntityStored` | src/dynamodb-crud/handler/insert_record.py:16-69 | after insertion an entity's item is at its key unless a later entity of the same kind has the same name (last write wins) |
| `InsertProperties.OrganizationWritesWellKeyed` | src/dynamodb-crud/handler/insert_record.py:13-63 | every put carries the partition key `ORG#name` and a sort key of one of the five kinds |
| `InsertProperties.OtherPartitionsUnchanged` | src/dynamodb-crud/handler/insert_record.py:17-63 | no key outside the organisation's partition is added, removed or changed |
| `InsertProperties.InsertIdempotent` | src/dynamodb-crud/handler/insert_record.py:16-69 | inserting the same organisation twice leaves the table as inserting it once, so list fields are never unioned |
| `InsertProperties.InsertedStored` | src/dynamodb-crud/handler/insert_record.py:16-69 | insertion keeps the invariant that every item is stored under its own key |
| `InsertProperties.WrittenKeysByKind` | src/dynamodb-crud/handler/insert_record.py:16-69 | the keys written are the union of the keys of the five kinds |
| `InsertProperties.KindKeysDisjoint` | src/dynamodb-crud/handler/insert_record.py:26-61 | keys written for two different kinds never coincide |
| `InsertProperties.KindItemsCount` | src/dynamodb-crud/handler/insert_record.py:16-69 | the flattener issues one metadata put, one put per department and per manager, one per project and one per employee |
| `InsertProperties.UniqueNamesDistinctKeys` | src/dynamodb-crud/handler/insert_record.py:26-61 | with names unique within a kind, no two puts of that kind address the same key, whatever repeats in other kinds |
| `InsertProperties.KindKeysSize` | src/dynamodb-crud/handler/insert_record.py:16-69 | each kind has at most one key per put of that kind, and exactly one when names within that kind are unique |
| `InsertProperties.WrittenKeyCount` | src/dynamodb-crud/handler/insert_record.py:16-69 | the distinct keys written number at most 1 + 2·departments + projects + employees (tasks get no item), with equality when names are unique per type |
| `InsertProperties.InsertedSize` | src/dynamodb-crud/handler/insert_record.py:16-69 | inserting into a partition that held nothing grows the table by exactly the number of distinct keys written |
| `InsertProperties.KindItemPresent` | src/dynamodb-crud/handler/insert_record.py:16-69 | after insertion, the key of every item written is present in the table and lies in the organisation's partition |
| `InsertProperties.ScanKeysAfterInsert` | src/dynamodb-crud/handler/query_records.py:21-77 | after insertion into an empty partition, a scan by kind matches exactly the keys written for that kind |
| `InsertProperties.ScanAfterInsert` | src/dynamodb-crud/handler/query_records.py:21-77 | after insertion into an empty partition, with names unique within the scanned kind, a scan by kind returns exactly that kind's items, one per entity |
| `InsertProperties.DepartmentRefsResolve` | src/dynamodb-crud/handler/insert_record.py:32 | every `PROJ#…` reference in a department item names a project key present after insertion |
| `InsertProperties.ProjectRefsResolve` | src/dynamodb-crud/handler/insert_record.py:56 | every `EMP#…` reference in a project item names an employee key present after insertion |
| `RoundTrip.MetadataRoundTrip` | src/dynamodb-crud/handler/insert_record.py:16-22 | after insertion, `get_organization_metadata` returns the organisation's item, whose `name`, `location` and `founded` equal the input |
| `RoundTrip.DepartmentRoundTrip` | src/dynamodb-crud/handler/insert_record.py:26-33 | `get_department` returns the last department of that name. Its `projects` list holds `PROJ#`+name for each project, in input order, and is empty when `projects` is absent. Its `manager` is the manager nested whole |
| `RoundTrip.ManagerItemFields` | src/dynamodb-crud/handler/insert_record.py:37-45 | a manager item's `certifications` equal the input list element by element, alongside its id, name, email and experience |
| `RoundTrip.ManagerRoundTrip` | src/dynamodb-crud/handler/insert_record.py:36-45 | the item at `MGR#`+name is the last manager of that name's item |
| `RoundTrip.ProjectItemFields` | src/dynamodb-crud/handler/insert_record.py:50-57 | a project item's `employees` list holds `EMP#`+name for each employee, in input order and empty when absent, with its budget and deadline |
| `RoundTrip.ProjectRoundTrip` | src/dynamodb-crud/handler/insert_record.py:49-57 | the item at `PROJ#`+name is the last project of that name's item |
| `RoundTrip.EmployeeItemFields` | src/dynamodb-crud/handler/insert_record.py:62-69 | an employee item's `tasks` equal the input task list element by element (empty when absent), with its id, name and role |
| `RoundTrip.EmployeeRoundTrip` | src/dynamodb-crud/handler/insert_record.py:59-69 | the item at `EMP#`+name is the last employee of that name's item |
| `RoundTrip.ListQueriesAfterInsert` | src/dynamodb-crud/handler/query_records.py:21-77 | after insertion into an empty partition with unique names, the four list queries return exactly the department, manager, project and employee items, with sizes equal to the entity counts |
| `RoundTrip.DepartmentScanCount` | src/dynamodb-crud/handler/query_records.py:21-30 | after insertion into an empty partition with distinct department names, `get_all_departments` returns one item per department, even when names repeat among managers, projects or employees |
| `RoundTrip.NoProjectsOf` | src/dynamodb-crud/handler/insert_record.py:48 | departments without projects contribute no project to the traversal |
| `RoundTrip.NoProjectsEmptyScans` | src/dynamodb-crud/handler/query_records.py:44-65 | when no department has projects, the project and employee scans after insertion return empty results, not errors |
| `SampleData.SampleEntities` | src/dynamodb-crud/sampledata.py:6-47 | the sample has one project (AI Development) and one employee (John), and its names are unique per type |
| `SampleData.SampleKey` | src/dynamodb-crud/sampledata.py:3 | the sample's partition key is `ORG#CodexOrg` |
| `SampleData.SampleMetadata` | src/dynamodb-crud/sampledata.py:3-5 | the sample's metadata reads back, founded 1998 |
| `SampleData.SampleEmployeeScan` | src/dynamodb-crud/sampledata.py:21-33 | the `EMP#` scan of `ORG#CodexOrg` returns exactly one item, John's |
| `SampleData.SampleProjectScan` | src/dynamodb-crud/sampledata.py:16-35 | the `PROJ#` scan of `ORG#CodexOrg` returns exactly one item, AI Development's |
| `SampleData.SampleDepartmentScans` | src/dynamodb-crud/sampledata.py:6-47 | the department and manager scans each return two items |
| `SampleData.SampleEmployee` | src/dynamodb-crud/sampledata.py:22-31 | John's item has role Software Engineer and two tasks, `In Progress` then `Pending` |
| `SampleData.SampleMarketing` | src/dynamodb-crud/sampledata.py:37-46 | Marketing, which has no `projects` entry, reads back with an empty `projects` list |
| `SampleData.SampleMissingDepartment` | src/dynamodb-crud/sampledata.py:6-47 | `get_department` for `Sales`, never written, returns the empty result |

## Left out

- The boto3 resource, and the table name read from the `DYNAMODB_TABLE` environment variable, are replaced by the in-memory `KeyValueTable`.
- Store failures are not modelled. A put or a read never fails, so `ClientError` and partially completed insertions do not arise.
- `convert_decimal` is not part of this model: numeric normalisation of query results is outside the key scheme. Query results are the stored items unchanged.
- Numbers (`founded`, `budget`, ids) are unbounded integers. `Decimal` values and fractional budgets are not represented.
- Pagination is not modelled: a scan is one complete page. Result order is not modelled either: scans return sets, and no order is claimed.
- Concurrency and consistency of the external table are not modelled. Racing writers and eventually consistent reads do not arise.
- `src/dynamodb-crud/lambda_function.py` is not part of this model. It handles orchestration, printing, JSON serialisation and the mapping of errors to status 500.
- Malformed input is not modelled. The source raises `KeyError` for a missing required field. In the model, the input datatypes always carry their required fields; only `projects`, `employees` and `tasks` may be absent.
- The nested input objects are modelled with fixed fields. The manager and task objects are stored as maps of exactly the fields the sample input carries, while the source copies the input dicts as they are, extra keys included.
- Names are strings. The source formats a name into the sort key with an f-string, which would also accept a non-string name.
- InsertProperties.ScanAfterInsert: stated only when the partition held nothing before insertion and names are unique within the scanned kind. Otherwise the scan also returns earlier items the flattener did not overwrite, and one item per repeated name of that kind. The model states those cases key by key (`EntityStored`, `Store.Untouched`), not as one scan result.
