# Neighborhood record store

This project models the record store of the LetsGoSEA web site: the `NeighborhoodService`
class that keeps the site's neighborhoods in one JSON document and answers lookups, creates,
updates and deletes by reading the whole document and, where something changes, writing the
whole document back.

- `records.dfy` (module `Records`): a neighborhood record, reduced to the fields the service
  touches (`id`, `name`, `image`, `city`, `state`, `shortDesc`) plus `rest`, the image paths,
  ratings and comments that no modelled operation reads or writes.
- `table.dfy` (module `Table`): the LINQ queries the service runs over the loaded table
  (`FirstOrDefault`, `Where` followed by `ElementAt(0)`, `Where(m => m.Id != id)`) and the
  table each mutating operation produces, as functions over `seq<Record>`, with the lemmas
  that state what they promise.
- `service.dfy` (module `Services`): the class `NeighborhoodService`. The JSON document is its
  field `store`; `GetNeighborhoods` reads it, `SaveData` replaces it and counts the rewrite in
  the ghost field `writes`, so the contracts can say when a save happens. `CreateData`,
  `UpdateData` and `DeleteData` are methods that read the store, build the new table and save
  it, as the C# code does; `GetNeighborhoodById` is a query over the store.
- `wrappers.dfy` (module `Wrappers`): `Option`, standing for a C# reference that may be null.

Ids are not unique. `CreateData` numbers the new record `count + 1`, not one past the largest
id, so after a delete it can hand out an id that is still in use. From then on `UpdateData`
and `GetNeighborhoodById` only ever reach the first record with that id, while `DeleteData`
removes all of them. The lemmas `DeleteThenCreateDuplicatesId`, `CreatedIsShadowed` and
`DuplicatesUpdateFirstDeleteAll` state this. Id uniqueness is therefore not modelled as an
invariant of the stored table, because the code does not keep it. It does hold for one
create while the ids are distinct and lie between 1 and the record count
(`CreateKeepsUniqueIdsWhenDense`).

## Model

| member | source | states |
|---|---|---|
| `Table.FirstIndex` | src/Services/NeighborhoodService.cs:120 | The index of the record that `FirstOrDefault` on the id picks: it is None exactly when no record has the id; otherwise it is in range, that record has the id and no earlier record has it. |
| `Table.FirstMatch` | src/Services/NeighborhoodService.cs:148 | `FirstOrDefault` on the id: null exactly when no record has the id; otherwise a stored record carrying that id. |
| `Table.Matching` | src/Services/NeighborhoodService.cs:50 | `Where(x => x.Id == id)` for a nullable id: a record is selected exactly when it is stored and its id equals the argument (a null argument equals no id), and the selection keeps the table's order. |
| `Table.Lookup` | src/Services/NeighborhoodService.cs:50-58 | `Where(...).ElementAt(0)` with the caught `ArgumentOutOfRangeException` as null: null exactly when no stored record's id equals the argument, otherwise a stored record carrying that id (that it is the first one is `LookupIsFirstMatch`). |
| `Table.Remaining` | src/Services/NeighborhoodService.cs:151 | The filter `DeleteData` saves never yields more records than it was given; its full meaning is in the `Remaining*` and `Delete*` lemmas below. |
| `Table.LookupIsFirstMatch` | src/Services/NeighborhoodService.cs:46-60 | `Where(...).ElementAt(0)` with the out-of-range exception caught as null returns the same record as `FirstOrDefault`: the first record with the id, or null when none matches. |
| `Table.LookupOfNullIsNone` | src/Services/NeighborhoodService.cs:46-50 | The lookup takes an `int?`; a null id matches nothing, so the result is null for every table. |
| `Table.LookupOfNonPositiveIdIsNone` | UnitTests/Services/NeighborhoodService.Tests.cs:115-124 | On a table whose ids are all at least 1 (as `CreateData` hands them out), looking up -1, or any id below 1, yields null rather than failing. |
| `Table.RemainingMembers` | src/Services/NeighborhoodService.cs:151 | After a delete, a record is in the saved table exactly when it was stored before and its id differs from the deleted id: no record with that id is left and every other one is kept. |
| `Table.RemainingIsSubsequence` | src/Services/NeighborhoodService.cs:151 | The records a delete keeps stay in their original relative order. |
| `Table.RemainingLength` | src/Services/NeighborhoodService.cs:151-152 | A delete shrinks the table by exactly the number of records that carry the id. |
| `Table.RemainingWithoutMatchIsIdentity` | src/Services/NeighborhoodService.cs:151-152 | When no record carries the id, the delete saves the table exactly as it was. |
| `Table.DeleteIsIdempotent` | src/Services/NeighborhoodService.cs:145-155 | Deleting the same id twice leaves the same table as deleting it once, and the second delete returns null. |
| `Table.DeletePreservesOtherLookups` | src/Services/NeighborhoodService.cs:151 | Deleting one id does not change which record a lookup by any other id returns. |
| `Table.Updated` | src/Services/NeighborhoodService.cs:119-132 | The table `UpdateData` saves has the old length and, at every position, the old id and the old untouched fields; with no matching record it is the old table; otherwise every record except the first match is unchanged. |
| `Table.UpdatedLookup` | src/Services/NeighborhoodService.cs:120-134 | After an update, looking up the argument's id returns the first matching record with the five fields overwritten (or still null when nothing matched). |
| `Table.UpdateIsIdempotent` | src/Services/NeighborhoodService.cs:126-132 | Applying the same update twice gives the same table as applying it once. |
| `Table.UpdatePreservesOtherLookups` | src/Services/NeighborhoodService.cs:120-132 | An update does not change which record a lookup by any other id returns. |
| `Table.DuplicatesUpdateFirstDeleteAll` | src/Services/NeighborhoodService.cs:117-156 | With two records sharing an id, the update leaves the later one exactly as it was, while the delete leaves no record with that id and shrinks the table by at least two. |
| `Table.CreateKeepsUniqueIdsWhenDense` | src/Services/NeighborhoodService.cs:93 | If the ids are distinct and all lie between 1 and the record count, the id `CreateData` hands out is fresh and the ids stay distinct. |
| `Table.DeleteThenCreateDuplicatesId` | src/Services/NeighborhoodService.cs:87-109 | Id uniqueness is not kept by `CreateData`: from the distinct ids [1, 2], deleting 1 and then creating gives two records with id 2. |
| `Table.CreatedIsShadowed` | src/Services/NeighborhoodService.cs:93-104 | When an existing record already carries the id `CreateData` hands out, a lookup by that id still finds the older record and never the appended one. |
| `Table.CreatedIsFound` | src/Services/NeighborhoodService.cs:93-104 | When no existing record carries the new id, a lookup by it returns exactly the blank record that was appended. |
| `Table.Created` | src/Services/NeighborhoodService.cs:90-106 | The table `CreateData` saves is the old table, unchanged and in order, followed by one record with id count + 1, empty text fields and the default untouched fields. |
| `Records.Blank` | src/Services/NeighborhoodService.cs:90-100 | The record `CreateData` builds carries the given id and the empty string in name, image, city, state and short description. |
| `Records.Edited` | src/Services/NeighborhoodService.cs:126-130 | The edited record takes name, image, city, state and short description from the argument and keeps its own id and untouched fields. |
| `Table.OperationsKeepPositiveIds` | src/Services/NeighborhoodService.cs:93 | Create, update and delete all keep every id at least 1. |
| `Services.NeighborhoodService.GetNeighborhoods` | src/Services/NeighborhoodService.cs:29-38 | Reading the document yields the stored table. |
| `Services.NeighborhoodService.SaveData` | src/Services/NeighborhoodService.cs:66-80 | Saving replaces the stored table with the given one and counts one rewrite. |
| `Services.NeighborhoodService.GetNeighborhoodById` | src/Services/NeighborhoodService.cs:46-60 | Returns null for a null id; otherwise the first stored record with the id, or null when none has it. It never fails and reads only. |
| `Services.NeighborhoodService.CreateData` | src/Services/NeighborhoodService.cs:87-109 | Appends one record with id equal to the old record count plus one and empty name, image, city, state and short description; earlier records are unchanged and in order; returns the appended record; saves once. |
| `Services.NeighborhoodService.UpdateData` | src/Services/NeighborhoodService.cs:117-135 | Returns null exactly when no record has the argument's id, and then the store is unchanged and nothing is saved. Otherwise it overwrites the five editable fields of the first match only, keeps its id and other fields, changes no other record or the length, saves once, and returns the edited record, which a later lookup by the id returns. |
| `Services.NeighborhoodService.DeleteData` | src/Services/NeighborhoodService.cs:142-156 | Returns the first record with the id, or null; the saved table holds exactly the old records with a different id, shrinks by the number of matches, equals the old table when nothing matched, and is saved even then. |
| `Services.DeleteThenCreate` | src/Services/NeighborhoodService.cs:87-156 | A client run over the class: with records 1 and 2 stored, `DeleteData(1)` then `CreateData()` hands out id 2 again, and `GetNeighborhoodById(2)` returns the older record 2. |

## Left out

- Reading and writing the JSON file (`File.OpenText`, `JsonSerializer` with case-insensitive property names, `File.Create`, the indented `Utf8JsonWriter`) and the web-root path: the document is the field `store`. A file that is missing or does not parse is not modelled.
- Serialization round trips: the model assumes that what `SaveData` writes, `GetNeighborhoods` reads back unchanged.
- The two separate reads of the document in `DeleteData` and in `CreateData` read the same table, since nothing runs between them in a single-threaded call.
- Concurrency: there is no locking in the service, so read-modify-write races between requests are possible; every model call runs alone.
- Null: a null `data` argument to `UpdateData`, null elements inside the stored array, and null text fields are not modelled; text fields are plain strings, so null and `""` are not told apart.
- Object identity: `UpdateData` returns the very object it edited inside the loaded array; the model returns the edited record as a value, so later aliasing through that reference is not captured.
- Services.NeighborhoodService.CreateData: ids are unbounded integers, so the 32-bit overflow of `Count() + 1` (and `Count()` throwing beyond `int.MaxValue` records) is not modelled.
- The default values the record class gives the fields `CreateData` does not assign are not visible (the record class is not part of this model); the service holds them as the constant `blank`.
- `AddData`, `AddRating`, `AddComment`, `DeleteComment`, `GetAllImages`, `CreateID` and `GetNeighborhoodByName`: they are called by the tests, the create page and the controller, but their implementations are not part of this model.
- The create page handler (form binding, `Int32.Parse`, redirects) and the HTTP controller: web-framework glue that only delegates to the service.
