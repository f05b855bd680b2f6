# Subtask reconciliation on update

A task owns an ordered list of subtasks. Each subtask has a `subject`, a
`status` and a `deadline`. It may also carry a `deletedAt` mark: a marked
subtask is soft-deleted and stays in storage.

The update handler of the subtask controller receives a new list of
`{subject, status, deadline}` items. It reconciles the list with the task's
stored subtasks, soft-deleted ones included, using the subject as the key:

1. The request items go into a JavaScript `Map` from subject to item. A
   later item with the same subject overwrites the earlier one.
2. The stored list is walked in order:
   - a soft-deleted entry is skipped;
   - a live entry whose subject is not in the map is soft-deleted at the
     current time, in place;
   - a live entry whose subject is in the map is replaced, in place, by a copy
     of the item, and that subject is deleted from the map.
3. Every item left in the map is appended, in map order.

This project models that merge and proves what it promises.

Files:

- `subtasks.dfy` (module `Subtasks`): the stored subtask, the request item,
  and helper functions on request lists (first and last index of a subject)
  and on stored lists (the subjects of live entries).
- `ordered_maps.dfy` (module `OrderedMaps`): the insertion-ordered `Map`. It is
  an association list with distinct keys, with `has`, `get`, `set` and
  `delete`.
- `subtask_merge.dfy` (module `SubtaskMerge`): the three loops of the handler
  as methods, and `Reconcile`, the function they are proved equal to.
- `merge_properties.dfy` (module `MergeProperties`): the map built from the
  request, what the walk writes at each position, and what it appends.
- `merge_outcome.dfy` (module `MergeOutcome`): the list after an update. Live
  subjects are distinct and are exactly the request's subjects. A second
  identical update changes nothing. Soft-deleted entries are never
  revived.
- `merge_examples.dfy` (module `MergeExamples`): three small worked cases.

## Model

| member | source | states |
|---|---|---|
| OrderedMaps.Has | src/controllers/subtask.ts:96 | definition of `map.has(k)`: some entry of the map has key `k` |
| OrderedMaps.HasAt | src/controllers/subtask.ts:96 | `map.has(k)` holds exactly when some map position carries key `k` |
| OrderedMaps.Get | src/controllers/subtask.ts:100 | `map.get(k)` on a present key returns a value stored with `k` in the map |
| OrderedMaps.Set | src/controllers/subtask.ts:88 | after `map.set(k, v)` the keys are the old keys plus `k` |
| OrderedMaps.SetGet | src/controllers/subtask.ts:88 | after `map.set(k, v)`, `k` maps to `v` and every other key keeps its value |
| OrderedMaps.SetPositions | src/controllers/subtask.ts:88 | `map.set` keeps every key at its position; a new key is appended at the end and the size grows by one only then |
| OrderedMaps.Delete | src/controllers/subtask.ts:101 | after `map.delete(k)`, `k` is absent and every other key is present exactly when it was before |
| OrderedMaps.DeleteGet | src/controllers/subtask.ts:101 | `map.delete(k)` keeps the value of every other key |
| OrderedMaps.Without | src/controllers/subtask.ts:101 | removing a set of keys leaves exactly the keys outside the set |
| OrderedMaps.WithoutGet | src/controllers/subtask.ts:101 | removing keys keeps the values of the keys that remain |
| OrderedMaps.WithoutKeepsOrder | src/controllers/subtask.ts:101-105 | removing keys keeps the relative order of the remaining entries, so iteration at line 105 visits them in insertion order |
| OrderedMaps.FirstRanksLowest | src/controllers/subtask.ts:105 | in a map whose keys increase by a rank, the first key ranks below every later key |
| OrderedMaps.WithoutWithout | src/controllers/subtask.ts:101 | deleting one set of keys and then another is the same as deleting their union |
| OrderedMaps.WithoutAbsent | src/controllers/subtask.ts:101 | deleting keys that are not present changes nothing |
| OrderedMaps.GetAt | src/controllers/subtask.ts:100-105 | the value at a map position is what `get` returns for its key |
| OrderedMaps.KeySet | src/controllers/subtask.ts:105 | the map has exactly one entry per distinct key |
| SubtaskMerge.BuildMap | src/controllers/subtask.ts:84-89 | definition: the empty map after `set(item.subject, item)` for every request item, in request order |
| SubtaskMerge.Visit | src/controllers/subtask.ts:93-102 | the entry the loop leaves at one position: a soft-deleted entry as it is; a live entry whose subject the map lacks soft-deleted at `now`; otherwise a copy of the map's item. The result is live exactly when the entry is live and its subject is in the map, and an entry that ends deleted keeps its subject, status and deadline |
| SubtaskMerge.Consume | src/controllers/subtask.ts:96-101 | the map after one position: after a live entry, that entry's subject is no longer in the map; every other key, and every key after a soft-deleted entry, is present exactly when it was before |
| SubtaskMerge.Walk | src/controllers/subtask.ts:92-103 | definition: `Visit` at every position in index order, each seeing the map `Consume` left after the positions before it; returns the written entries and the final map |
| SubtaskMerge.NewEntries | src/controllers/subtask.ts:105-106 | definition: one stored copy per map entry, in map order |
| SubtaskMerge.Reconcile | src/controllers/subtask.ts:83-107 | definition of the whole merge: `Walk` over the current list with the map built from the request, followed by `NewEntries` of what the walk leaves |
| SubtaskMerge.FillPending | src/controllers/subtask.ts:84-89 | the first loop leaves the map obtained by `set`ting every request item in order |
| SubtaskMerge.ReconcileInPlace | src/controllers/subtask.ts:92-103 | the second loop writes, position by position, the entry `Walk` prescribes, and leaves the map with the unconsumed items |
| SubtaskMerge.WalkStep | src/controllers/subtask.ts:92-103 | visiting one more entry extends the walk by that entry's outcome |
| SubtaskMerge.AppendPending | src/controllers/subtask.ts:105-107 | the third loop appends one stored copy per item left in the map, in map order |
| SubtaskMerge.MergeSubtasks | src/controllers/subtask.ts:83-107 | the three loops together compute `Reconcile(current, incoming, now)` |
| MergeProperties.BuildMapKeys | src/controllers/subtask.ts:84-89 | the map's keys are exactly the subjects in the request |
| MergeProperties.BuildMapValues | src/controllers/subtask.ts:84-89 | each subject maps to the LAST request item with that subject (last write wins) |
| MergeProperties.BuildMapOrder | src/controllers/subtask.ts:84-89 | the map's keys are in the order in which the subjects first occur in the request |
| MergeProperties.BuildMapRankKept | src/controllers/subtask.ts:85-88 | one more `set` leaves the first-occurrence rank of every existing key unchanged and below the new position |
| MergeProperties.BuildMapOrderReplace | src/controllers/subtask.ts:88 | `set` on a subject already in the map keeps the first-occurrence order |
| MergeProperties.BuildMapOrderAppend | src/controllers/subtask.ts:88 | `set` on a new subject appends it after all keys of smaller rank, keeping the order |
| MergeProperties.ExtendOrder | src/controllers/subtask.ts:88 | an entry ranked after all earlier entries can be placed last without breaking the order |
| MergeProperties.FirstOccurrenceOrderIsIncreasing | src/controllers/subtask.ts:84-89 | first-occurrence order is the same as order by increasing first index |
| MergeProperties.WalkLength | src/controllers/subtask.ts:92-103 | the walk writes exactly one entry per current entry |
| MergeProperties.WalkPending | src/controllers/subtask.ts:96-101 | after the walk, the map holds exactly the items whose subject no live current entry carries |
| MergeProperties.WalkEntries | src/controllers/subtask.ts:92-103 | the entry written at position `i` depends only on the items the live entries before `i` did not consume |
| MergeProperties.ReconcileAt | src/controllers/subtask.ts:92-103 | for each current position: a soft-deleted entry is kept as is (lines 94-95); a live entry whose subject is in the request and not taken by an earlier live entry becomes a copy of the last request item with that subject, live, with its subject, status and deadline (line 100); any other live entry is soft-deleted at `now` with its subject, status and deadline kept (line 98) |
| MergeProperties.ReconcileSplit | src/controllers/subtask.ts:92-107 | the result is one entry per current entry, followed by the stored copies of the leftover items |
| MergeProperties.ReconcileLength | src/controllers/subtask.ts:92-107 | no entry is dropped: the length is the current length plus the number of distinct request subjects that no live current entry carries |
| MergeProperties.LeftoverEntry | src/controllers/subtask.ts:101-106 | each leftover item is a request subject no live entry carries, keyed by its own subject, and is its subject's last request item |
| MergeProperties.ReconcileAppendedEntries | src/controllers/subtask.ts:105-107 | every appended entry is a request subject not carried by any live current entry, holds the last request item's values, and is not deleted |
| MergeProperties.ReconcileAppendedCover | src/controllers/subtask.ts:105-107 | every request subject that no live current entry carries is appended |
| MergeProperties.LeftoverOrder | src/controllers/subtask.ts:101-105 | the leftover items stay in the order of first occurrence in the request |
| MergeProperties.AppendedSubject | src/controllers/subtask.ts:105-106 | the subject of the entry appended at a position is the key of the leftover item there |
| MergeProperties.ReconcileAppendedOrder | src/controllers/subtask.ts:105-107 | appended entries follow the first occurrence of their subjects in the request, so no subject is appended twice |
| MergeOutcome.ReconcileKeepsSubjects | src/controllers/subtask.ts:92-103 | every current position keeps its subject |
| MergeOutcome.SoftDeleteIsFinal | src/controllers/subtask.ts:94-98 | a soft-deleted entry is written back unchanged; a live entry either stays live or is soft-deleted at `now` with its other fields kept (line 98) |
| MergeOutcome.EmptyRequestDeletesAll | src/controllers/subtask.ts:92-107 | with an empty request, every live entry is soft-deleted in place, every soft-deleted entry is kept, and nothing is appended |
| MergeOutcome.EmptyCurrentAppendsAll | src/controllers/subtask.ts:84-107 | with no current subtasks, the result is the stored copies of the map: one live entry per distinct request subject, in first-occurrence order, each with its last values |
| MergeOutcome.LiveEntryFromRequest | src/controllers/subtask.ts:83-107 | every live entry of the result is a request subject holding the values of its last request item |
| MergeOutcome.RequestSubjectIsLive | src/controllers/subtask.ts:83-107 | every request subject has a live entry in the result |
| MergeOutcome.LiveEntriesDiffer | src/controllers/subtask.ts:83-107 | two live entries of the result never share a subject |
| MergeOutcome.LiveAfterMerge | src/controllers/subtask.ts:83-107 | after the merge, live subjects are pairwise distinct and equal to the request's subject set, and each live entry is the copy (line 100 or 106) of its subject's last request item |
| MergeOutcome.ReconcileIdempotent | src/controllers/subtask.ts:83-107 | repeating the same request at any later time leaves the list exactly as it is |
| MergeOutcome.NoRevival | src/controllers/subtask.ts:94-95 | a request subject with only soft-deleted current entries leaves those entries unchanged and is appended as a new entry |
| MergeExamples.DuplicateRequestSubject | src/controllers/subtask.ts:84-89 | `[a/x, a/y]` against an empty list gives one entry `a/y` |
| MergeExamples.EmptyRequest | src/controllers/subtask.ts:96-98 | an empty request soft-deletes the only live entry of a one-entry list and keeps its fields |
| MergeExamples.ReplaceDeleteAppend | src/controllers/subtask.ts:92-107 | current `[a, b]` with request `[b/done, c]` gives `[a soft-deleted, b/done, c]` |

`Subtasks.ToSubtask` (the stored copy of a request item, line 100) and
`Subtasks.SoftDeleted` (an entry with `deletedAt` set, line 98) are plain
definitions. What lines 98 and 100 promise is stated by `ReconcileAt`,
`SoftDeleteIsFinal` and `LiveAfterMerge`.

## Left out

- The HTTP plumbing of the handler and of `get` (src/controllers/subtask.ts:7-81, 109-124) is not modelled. This covers the task-id check, the response envelopes, logging and the read-after-write. The merge is the part with logic to prove.
- `getAllSubTasks` and `updateSubtaskById` (src/models/subtask.ts), the MongoDB read and write, are not part of this model. The stored list enters `MergeSubtasks` as a parameter and the written list is its result.
- `new Date()` at line 98 is not modelled. The model assumes that line stores the current time, as `Some(now)` with `now` an integer parameter. Line 1 binds `Date` to the export of `mongoose`, not to the global constructor, and the model does not capture what `new Date()` produces through that binding. It also stamps every entry deleted in one update with the same `now`, although the expression is evaluated once per entry.
- Request items are modelled with only their three declared fields. Extra JSON fields the client may send, such as its own `deletedAt`, are not modelled.
- The handler does not validate the body. A `null` element makes the destructuring at line 87 throw a `TypeError`, and nothing in `update` (lines 52-122) catches it. `SubtaskInput` is always a record with three fields, so the model does not have this case.
- `deadline` arrives as a JSON string (stored as a date). The model treats it as an integer `Timestamp` and copies it unchanged.
- `structuredClone` at line 100 and the uncloned `push(value)` at line 106 both become value copies here. The model has no aliasing between the request and the stored list; Dafny datatypes are immutable values.
- A replaced entry carries only the four modelled fields. Bookkeeping fields of the stored subtask (such as a database id) are not modelled, so the model does not show that replacement discards them.
- `for ... in` over an array visits its indices in order; other enumerable properties are not modelled. `if (deletedAt)` at line 94 tests JavaScript truthiness: an absent or `null` `deletedAt` counts as live there, as it does for `$ifNull` in src/models/subtask.ts:34. The model writes such a value as `None` and any truthy value as `Some`.
- The `Map` object `newSubtasksMap` becomes an immutable ordered-map value that the loops reassign after each `set` and `delete`. Nothing else refers to the map, so no sharing is lost.
- The in-place update of the stored array becomes a local `seq` that `ReconcileInPlace` reassigns index by index. The handler's single body is split into three loop methods, `FillPending`, `ReconcileInPlace` and `AppendPending`, which `MergeSubtasks` calls in sequence.
- Concurrency is not modelled. Two concurrent updates of one task can both read the old list, and the later write discards the earlier one.
