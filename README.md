# Report storage model

A Dafny model of `CustomReportStorageWebExtension`, the report storage that a DevExpress
reporting web application registers for its Report Designer and Document Viewer. Reports
are opaque layout byte blobs keyed by a name (the "URL"). They come from two tiers:

- the persisted `Reports` table of the database context. Its rows are `ReportItem(name,
  displayName, layoutData)`, modelled as a `seq<ReportItem>` in enumeration order;
- the predefined catalog `ReportsFactory.Reports`. It is read-only and modelled as a
  `map<string, Bytes>`. Each entry stands for "call the factory, then `SaveLayoutToXml`".

Modules:

- `Outcomes`: `Option`, `Result` and two exceptions: the `FaultException` that `GetData`
  raises, and the `ArgumentException` that `ToDictionary` would raise on a repeated key.
  `GetUrls` is proved never to raise the latter.
- `FileNames`: `Path.GetFileName` over a fixed separator set `{'/', '\\'}`.
- `Enumerables`: the LINQ operators used by `GetUrls`. These are `Union` (distinct, first
  occurrence kept, with the order proved by `UnionOrder`), `ToDictionary` (fails on a
  repeated key), and `Enumerate`, which lists the catalog's key set in an unspecified order.
- `ReportTable`: the table, `FirstOrDefault` (it returns the position of the row, so the row
  can be updated in place), and `Upsert`, the table after `SetData`. It also holds the lemmas
  about `Upsert`.
- `ReportStorage`: `IsValidUrl`, `CanSetData`, `GetData` and `GetUrls`. These read state but do
  not change it, so they are functions of the table and the catalog. The module also holds the
  class `CustomReportStorageWebExtension`. Its `reports` field is the table, and its methods
  `SetData` and `SetNewData` reassign that field the way the code adds or updates a row before
  `SaveChanges`.

The report object is a type parameter `R`, and its serialiser `SaveLayoutToXml` is a function
`R -> Bytes` given to the constructor. The database context's initial rows are given to the
constructor too. `SaveChanges` is the point where the new `reports` value holds.

Behaviour of the code that a reader might expect otherwise:

- `GetUrls` maps every name to itself, persisted names included. The row's `DisplayName` is
  never used (lines 100-104).
- `IsValidUrl` accepts `".."`, `"."` and the empty name. None of them holds a separator
  (`DotNamesAccepted`).
- `SetNewData` performs no validation of its own. It hands the name straight to `SetData`.
- Uniqueness of names is not assumed of the table. `GetData` and `SetData` act on the first
  row with the name. `SetData` keeps uniqueness when it already holds.

## Model

| member | source | states |
|---|---|---|
| `FileNames.GetFileName` | Services/CustomReportStorageWebExtension.cs:47 | the result is the suffix of the path after its last separator: a suffix, free of separators, and preceded by a separator whenever it is shorter than the path |
| `FileNames.GetFileNameFixed` | Services/CustomReportStorageWebExtension.cs:47 | the file name equals the path exactly when the path holds no separator (both directions) |
| `ReportStorage.IsValidUrl` | Services/CustomReportStorageWebExtension.cs:42-48 | a URL is valid if and only if none of its characters is a directory separator |
| `ReportStorage.SeparatorRejected` | Services/CustomReportStorageWebExtension.cs:47 | any name with a separator at any position is rejected |
| `ReportStorage.ParentTraversalRejected` | Services/CustomReportStorageWebExtension.cs:47 | the traversal name `../x` is rejected |
| `ReportStorage.NestedNameRejected` | Services/CustomReportStorageWebExtension.cs:47 | the nested name `a\b` is rejected |
| `ReportStorage.DotNamesAccepted` | Services/CustomReportStorageWebExtension.cs:47 | `..`, `.` and the empty name pass the file-name test |
| `ReportStorage.CanSetData` | Services/CustomReportStorageWebExtension.cs:34-40 | every name may be written; as a function it changes no state |
| `ReportTable.Names` | Services/CustomReportStorageWebExtension.cs:101-102 | one name per row, in table order |
| `ReportTable.FirstOrDefault` | Services/CustomReportStorageWebExtension.cs:74 | a row is found exactly when some row carries the name, and the one found is the first such row |
| `ReportStorage.GetData` | Services/CustomReportStorageWebExtension.cs:74-85 | succeeds exactly when either tier holds the name; the first persisted row's layout is returned unchanged even when the catalog holds the name too; otherwise the catalog's layout; otherwise the fault `NotFound(url)`, a `FaultException` with the message "Could not find report '<url>'." as the `string.Format` of line 85 builds it |
| `ReportStorage.PersistedShadowsPredefined` | Services/CustomReportStorageWebExtension.cs:74-76 | in a table with unique names, the persisted row's layout is what GetData returns, whatever the catalog holds |
| `Enumerables.DistinctFrom` | Services/CustomReportStorageWebExtension.cs:103 | the result has no repeats and holds exactly the input's elements not already seen |
| `Enumerables.UnionOrder` | Services/CustomReportStorageWebExtension.cs:103 | the union is the first sequence without repeats, in order, followed by those elements of the second sequence that the first lacks, in order |
| `Enumerables.DistinctFromAppend` | Services/CustomReportStorageWebExtension.cs:103 | removing repeats from a concatenation removes them from the first part, then from the second part against what the first part showed |
| `Enumerables.Union` | Services/CustomReportStorageWebExtension.cs:103 | the union has no repeats and holds exactly the elements of either input |
| `Enumerables.ToDictionaryInto` | Services/CustomReportStorageWebExtension.cs:104 | adding keys succeeds exactly when no key repeats or is already present; the keys are the old ones plus the new, each new key mapped to itself |
| `Enumerables.ToDictionary` | Services/CustomReportStorageWebExtension.cs:104 | `ToDictionary(x => x)` succeeds exactly when the sequence has no repeats, and then maps each element, and only those, to itself |
| `Enumerables.Enumerate` | Services/CustomReportStorageWebExtension.cs:103 | enumerating the catalog's keys yields each key exactly once |
| `ReportStorage.GetUrls` | Services/CustomReportStorageWebExtension.cs:100-104 | the listing never raises the duplicate-key fault; its keys are exactly the persisted names united with the predefined names, and each key maps to itself |
| `ReportTable.Upsert` | Services/CustomReportStorageWebExtension.cs:116-125 | for a new name, exactly one row `(url, url, layout)` is appended and the old rows are kept; for an existing name, only the first such row's layout changes, its name and display name stay, the length stays, and every other row is unchanged |
| `ReportTable.UpsertNames` | Services/CustomReportStorageWebExtension.cs:117-125 | after the write, the set of persisted names is the old set plus the name written |
| `ReportTable.UpsertCount` | Services/CustomReportStorageWebExtension.cs:117-125 | the write never adds a second row for the name: the name has one row afterwards, or as many as before if it had some |
| `ReportTable.UpsertOthers` | Services/CustomReportStorageWebExtension.cs:117-125 | for any other name, the row that lookup finds is the same position and the same row as before |
| `ReportTable.UpsertUnique` | Services/CustomReportStorageWebExtension.cs:117-125 | a table whose names are unique keeps them unique |
| `ReportTable.UpsertTwice` | Services/CustomReportStorageWebExtension.cs:117-125 | writing a name twice gives the same table as writing only the second layout |
| `ReportStorage.SetDataRoundTrip` | Services/CustomReportStorageWebExtension.cs:116-125 | after the write, GetData of the name returns exactly the layout just serialised, whichever tier held the name before |
| `ReportStorage.SetDataKeepsOthers` | Services/CustomReportStorageWebExtension.cs:117-125 | after the write, GetData of every other name returns what it returned before |
| `ReportStorage.SetDataListsUrl` | Services/CustomReportStorageWebExtension.cs:100-125 | after the write, the listing's keys are the old ones plus the name written |
| `ReportStorage.SetDataTwiceOneRow` | Services/CustomReportStorageWebExtension.cs:117-125 | two writes to a new name leave exactly one row for it, and that row holds the second layout |
| `ReportStorage.CustomReportStorageWebExtension.constructor` | Services/CustomReportStorageWebExtension.cs:25 | the storage starts over the given table and catalog |
| `ReportStorage.CustomReportStorageWebExtension.SetData` | Services/CustomReportStorageWebExtension.cs:107-127 | the new table is the Upsert of the old one with the serialised report; GetData then returns that layout; the name's row count becomes one or stays; unique names stay unique |
| `ReportStorage.CustomReportStorageWebExtension.SetNewData` | Services/CustomReportStorageWebExtension.cs:129-136 | has the same effect on the table as SetData under the given name and returns that name unchanged |

## Left out

- Program.cs: host setup, dependency injection, the SQLite connection and the HTTP pipeline. None of it is storage logic.
- Constructor directory creation (lines 19-24): file-system I/O that the table-based storage never uses.
- `IsWithinReportsFolder` (lines 28-32): it needs full-path resolution by the file system, and nothing calls it.
- The commented-out file-based implementations (lines 53-68, 93-96 and 110-112) are not code.
- `SaveLayoutToXml` and the construction of reports from the `ReportsFactory` factories are library calls. They are a serialiser parameter and catalog values. `ReportsFactory` is not part of this model.
- EF Core and `SaveChanges` durability and failure: the table is in-memory state. A failing commit and the `PersistenceError` it would raise are not modelled.
- FileNames.GetFileName: the separator set is fixed to `'/'` and `'\\'`. The platform-specific rules of `Path.GetFileName` are not modelled: on Unix only `'/'` separates, and on Windows a volume prefix such as `C:` is cut off.
- Null names: Dafny strings are never null, so the model's names are never null. In the code, `IsValidUrl(null)` is true, because `Path.GetFileName(null)` is null. `GetData(null)` with no matching row then raises `ArgumentNullException` from `ContainsKey`. Neither behaviour is modelled.
- Concurrency between writers: each request calls the storage on its own.
- Disposal of streams and report objects (`using`): it has no effect on the store.
- The order of `GetUrls`'s enumeration is left open through `Enumerate`, because the result is a dictionary.
