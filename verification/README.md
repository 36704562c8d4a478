# Todo item lifecycle — a Dafny model

This project models the core of a small todo backend. The model covers:

- the lifecycle of an item through its three statuses: NOT_DONE ("not done"), DONE ("done") and PAST_DUE ("past due");
- the client patch that moves an item between NOT_DONE and DONE;
- the periodic sweep that turns overdue NOT_DONE items into PAST_DUE;
- the creation-ordered queries over the item table, and the status-filtered listing built on them;
- the mapper between entities and response objects.

The modules follow the packages of the Java code:

| module | file | models |
|---|---|---|
| `Outcomes` | outcomes.dfy | optional values, and the error outcomes (not found, locked, invalid status, scheduler failure) |
| `Model` | model.dfy | `TodoStatus`, its display names, `isUpdatableStatus`, and the case-insensitive parser `from` |
| `Entity` | entity.dfy | `TodoItemEntity` and its column constraints |
| `Mapper` | mapper.dfy | `TodoItemMapper` |
| `Repository` | repository.dfy | `TodoItemRepository`: a class holding the table as `map<int, TodoItem>` and the next identity value |
| `Service` | service.dfy | `TodoItemService` |
| `Scheduler` | scheduler.dfy | `TodoItemScheduler` |

Modelling choices:

- **Time.** An integer `now` is passed to every operation that reads the clock.
- **Errors.** The Java code throws exceptions. Here they become `Err` values of a `Result`.
- **Repository.**
  - Ids come from an identity counter that starts at 1.
  - The creation-ordered queries sort the stored rows newest first.
  - Among equal creation times the order is not specified, so the model promises only this: the result is sorted, and it holds each qualifying stored item exactly once.
- **Sweep.** The repository's bulk update is a loop over the table with a counter. It changes status `from` to status `to` for every item due strictly before `now`.
- **Patch.** It is validated before anything is written, and the store is written only when the patch is accepted.
  - The Java `updateTodoFields` sets the description on the loaded entity before it validates the status.
  - The surrounding transaction and the skipped `save` keep that write out of the store, so the observable store is the same.

## Model

| member | source | states |
|---|---|---|
| Model.IsUpdatableStatus | src/main/java/com/sidpaw/todobackend/model/TodoStatus.java:26-28 | a status is updatable exactly when it is not PAST_DUE |
| Model.DisplayName | src/main/java/com/sidpaw/todobackend/model/TodoStatus.java:7-19 | the display names are "not done", "done" and "past due", each belonging to exactly one status |
| Model.ToString | src/main/java/com/sidpaw/todobackend/model/TodoStatus.java:21-24 | `toString` returns the display name |
| Model.ExactlyThreeStatuses | src/main/java/com/sidpaw/todobackend/model/TodoStatus.java:7-9 | every status is NOT_DONE, DONE or PAST_DUE, and the list of statuses holds these three, pairwise distinct |
| Model.DisplayNamesDistinct | src/main/java/com/sidpaw/todobackend/model/TodoStatus.java:7-9 | two statuses with the same display name are the same status |
| Model.ToStringIsDisplayName | src/main/java/com/sidpaw/todobackend/model/TodoStatus.java:17-24 | `toString` of every status is its display name |
| Model.DisplayNameIsLowerCase | src/main/java/com/sidpaw/todobackend/model/TodoStatus.java:7-9 | display names are already lower case, so lower-casing a display name leaves it unchanged |
| Model.LowerAscii | src/main/java/com/sidpaw/todobackend/service/TodoItemService.java:104 | lower-casing keeps the length and lower-cases each character |
| Model.LowerAsciiIdempotent | src/main/java/com/sidpaw/todobackend/service/TodoItemService.java:104 | lower-casing twice is the same as lower-casing once |
| Model.Lookup | src/main/java/com/sidpaw/todobackend/service/TodoItemService.java:118 | the lookup finds a status among the candidates exactly when one has that display name, and none otherwise |
| Model.From | src/main/java/com/sidpaw/todobackend/service/TodoItemService.java:118 | parsing succeeds exactly when the lower-cased text is some status's display name, and gives that status; a null or unknown text gives an invalid-status error carrying the text |
| Model.FromDisplayName | src/test/java/com/sidpaw/todobackend/TodoBackendApplicationTests.java:94 | round trip: parsing the display name of any status, "past due" included, returns that status |
| Model.FromIgnoresCase | src/test/java/com/sidpaw/todobackend/service/TodoItemServiceIntegrationTest.java:97-108 | two texts that agree after lower-casing parse to the same outcome |
| Model.FromAcceptsDoneSpellings | src/test/java/com/sidpaw/todobackend/service/TodoItemServiceIntegrationTest.java:97-108 | "DONE", "Done" and "done" all parse to DONE |
| Model.FromAcceptsNotDoneSpellings | src/test/java/com/sidpaw/todobackend/service/TodoItemServiceIntegrationTest.java:97-108 | "NOT DONE", "Not Done" and "not done" all parse to NOT_DONE |
| Model.FromRejectedSpellings | src/test/java/com/sidpaw/todobackend/service/TodoItemServiceIntegrationTest.java:110-117 | null, "", "  ", "invalid", "past_due" and "in progress" are each rejected with an invalid-status error |
| Entity.NewTodoItem | src/main/java/com/sidpaw/todobackend/entity/TodoItemEntity.java:42-47 | the two-argument constructor gives no id, status NOT_DONE, creation at now, no done time, and the description and due time as given |
| Entity.Utf16Length | src/main/java/com/sidpaw/todobackend/dto/TodoRequestDTO.java:22 | a description's length, as `@Size` and the column measure it, counts UTF-16 code units: between one and two per character |
| Entity.Utf16LengthOfBmp | src/main/java/com/sidpaw/todobackend/entity/TodoItemEntity.java:26-27 | a text inside the Basic Multilingual Plane has a length equal to its number of characters |
| Entity.Utf16LengthOfAstral | src/main/java/com/sidpaw/todobackend/entity/TodoItemEntity.java:26-27 | a text made only of characters outside the Basic Multilingual Plane has twice as many code units as characters |
| Entity.NewTodoItemIsWellFormed | src/test/java/com/sidpaw/todobackend/TodoItemEntityTest.java:44 | an item built from a valid description is created at or before now, and its description fits the 1000-unit column |
| Entity.AllArgsConstructor | src/test/java/com/sidpaw/todobackend/TodoItemEntityTest.java:65-84 | the all-arguments constructor sets all six fields exactly as given |
| Mapper.ToEntity | src/main/java/com/sidpaw/todobackend/mapper/TodoItemMapper.java:20-24 | an entity from a request has no id, status NOT_DONE, creation at now and no done time; its description and due time, even an absent one, are copied verbatim |
| Mapper.MapStatus | src/main/java/com/sidpaw/todobackend/mapper/TodoItemMapper.java:31-34 | a null status maps to null; otherwise the result is the status's display name, which parses back to the same status |
| Mapper.ToResponse | src/main/java/com/sidpaw/todobackend/mapper/TodoItemMapper.java:26-27 | the response of a present entity copies the id, description and all three timestamps, and shows the status as its display name, which parses back to it |
| Mapper.ToResponseDto | src/main/java/com/sidpaw/todobackend/mapper/TodoItemMapper.java:26-27 | null maps to null; otherwise the id, description and all three timestamps are copied, and the status becomes its display name |
| Mapper.MapEach | src/main/java/com/sidpaw/todobackend/mapper/TodoItemMapper.java:29 | element by element: the same length, null entries stay null, and every other entry is mapped |
| Mapper.ToResponseDtoList | src/main/java/com/sidpaw/todobackend/mapper/TodoItemMapper.java:29 | a null list maps to null; otherwise the length and order are kept, null entries stay null, and every other entry is mapped |
| Mapper.ToResponses | src/main/java/com/sidpaw/todobackend/mapper/TodoItemMapper.java:29 | a list with no null entries maps to one of the same length whose entries are the mapped items, in the same order |
| Mapper.ResponseStatusRoundTrip | src/main/java/com/sidpaw/todobackend/mapper/TodoItemMapper.java:31-34 | the status text in a response parses back to the entity's status |
| Mapper.ResponseListOfPresentRows | src/main/java/com/sidpaw/todobackend/service/TodoItemService.java:57 | on a list with no null entries, `toResponseDTOList` gives the responses of the entries, none null, in the same order |
| Repository.InsertNewestFirst | src/main/java/com/sidpaw/todobackend/repository/TodoItemRepository.java:23 | inserting adds exactly that item: the result is one longer and holds the old items plus the new one |
| Repository.InsertKeepsNewestFirst | src/main/java/com/sidpaw/todobackend/repository/TodoItemRepository.java:23 | inserting into a newest-first sequence keeps it newest first; the new head is the inserted item or the old head |
| Repository.SortNewestFirst | src/main/java/com/sidpaw/todobackend/repository/TodoItemRepository.java:23 | the sort returns a permutation of its input, ordered by creation time from newest to oldest |
| Repository.Filter | src/main/java/com/sidpaw/todobackend/repository/TodoItemRepository.java:26-27 | each item is kept as many times as it occurs when the condition accepts it, and dropped otherwise |
| Repository.RowsBelowCount | src/main/java/com/sidpaw/todobackend/repository/TodoItemRepository.java:18 | the table scan lists each stored item whose key is in range exactly once, and nothing else |
| Repository.TodoItemRepository.constructor | src/test/java/com/sidpaw/todobackend/repository/TodoItemRepositoryTest.java:125-132 | a new repository has an empty table, and its identity counter starts at 1 |
| Repository.TodoItemRepository.FindById | src/main/java/com/sidpaw/todobackend/repository/TodoItemRepository.java:18 | an item is found exactly when its id is stored; the item found is the stored one and carries that id |
| Repository.TodoItemRepository.Rows | src/main/java/com/sidpaw/todobackend/repository/TodoItemRepository.java:18 | the rows hold each stored item exactly once |
| Repository.TodoItemRepository.FindAllByOrderByCreationDatetimeDesc | src/main/java/com/sidpaw/todobackend/repository/TodoItemRepository.java:23 | a permutation of every stored item, with creation times from newest to oldest |
| Repository.TodoItemRepository.FindNotDoneItems | src/main/java/com/sidpaw/todobackend/repository/TodoItemRepository.java:26-29 | exactly the NOT_DONE items with no due time or a due time after now, each once, newest first |
| Repository.TodoItemRepository.FindByStatusOrderByCreationDatetimeDesc | src/main/java/com/sidpaw/todobackend/repository/TodoItemRepository.java:32 | exactly the items stored with the given status, each once, newest first |
| Repository.TodoItemRepository.Save | src/test/java/com/sidpaw/todobackend/repository/TodoItemRepositoryTest.java:58-94 | saving a new item assigns the next fresh id and stores it under that id; saving a stored item replaces it; afterwards findById returns what was saved |
| Repository.TodoItemRepository.UpdatePastDueItems | src/main/java/com/sidpaw/todobackend/scheduler/TodoItemScheduler.java:32-36 | the bulk update gives status `to` to exactly the items that have status `from` and a due time before now; it returns how many items matched and keeps the table well formed |
| Repository.SweepRows | src/main/java/com/sidpaw/todobackend/scheduler/TodoItemScheduler.java:32-36 | the key-by-key scan of the table leaves exactly the bulk update's result, and counts the matching rows |
| Repository.TransitionChangesOnlyStatus | src/main/java/com/sidpaw/todobackend/scheduler/TodoItemScheduler.java:32-36 | the bulk update keeps every key, id, description and timestamp; it changes a status only for an item that matched, and every matching item gets `to` |
| Repository.OverdueKeysAreChangedKeys | src/test/java/com/sidpaw/todobackend/scheduler/TodoItemSchedulerTest.java:125-128 | when `from` and `to` differ, the matched items are exactly the changed items, so the count is the number of changed items |
| Repository.TransitionIdempotent | src/test/java/com/sidpaw/todobackend/scheduler/TodoItemSchedulerTest.java:176-194 | after the bulk update nothing matches it any more, and running it again changes nothing |
| Repository.OverdueCountBelowIsCardinality | src/main/java/com/sidpaw/todobackend/scheduler/TodoItemScheduler.java:32-36 | the running count of the loop equals the number of matching keys scanned so far |
| Repository.OverdueCountIsMatches | src/main/java/com/sidpaw/todobackend/scheduler/TodoItemScheduler.java:32-36 | once every key has been scanned, the count equals the number of matching items |
| Repository.TransitionedEquals | src/main/java/com/sidpaw/todobackend/scheduler/TodoItemScheduler.java:32-36 | a table that agrees row by row with the bulk update's result is that result |
| Repository.TransitionedValid | src/main/java/com/sidpaw/todobackend/scheduler/TodoItemScheduler.java:32-36 | the bulk update keeps ids keyed, keys in range and descriptions within bounds |
| Repository.EmptyTableQueries | src/test/java/com/sidpaw/todobackend/repository/TodoItemRepositoryTest.java:125-132 | on an empty table, every query returns an empty list and findById returns nothing for every id |
| Service.ConvertToTodoStatus | src/main/java/com/sidpaw/todobackend/service/TodoItemService.java:102-114 | a status text is accepted exactly when it reads "not done" or "done" in any case; the result is never PAST_DUE; anything else, "past due" included, is an invalid status |
| Service.UpdateTodoFields | src/main/java/com/sidpaw/todobackend/service/TodoItemService.java:79-100 | a PAST_DUE item is locked whatever the patch holds; otherwise the patch succeeds exactly when any status it gives converts; on success the result is never PAST_DUE, keeps id, creation and due, and takes the patch's description if one is given |
| Service.PatchWithoutStatus | src/main/java/com/sidpaw/todobackend/service/TodoItemService.java:85-86 | a patch without a status changes only the description, and an empty patch returns the item unchanged |
| Service.PatchToDoneStampsNow | src/main/java/com/sidpaw/todobackend/service/TodoItemService.java:88-96 | "done" in any case sets DONE and stamps the done time with now, even on an item that is already DONE |
| Service.PatchToNotDoneKeepsDoneTime | src/main/java/com/sidpaw/todobackend/service/TodoItemService.java:88-97 | "not done" in any case sets NOT_DONE and leaves an earlier done time as it was |
| Service.PatchWithInvalidStatus | src/main/java/com/sidpaw/todobackend/service/TodoItemService.java:102-111 | any other status text is an invalid status, and "past due" is rejected with its own text |
| Service.ResponsesListExactly | src/main/java/com/sidpaw/todobackend/service/TodoItemService.java:116-126 | a query result that is newest first, with each accepted stored item once, maps to responses that show each such item once, as its mapped response, newest first |
| Service.CreateTodoItem | src/main/java/com/sidpaw/todobackend/service/TodoItemService.java:37-45 | create stores a new item under a fresh id, with status NOT_DONE, creation at now, no done time, and the given description and due time; it returns that item's response |
| Service.GetAllTodoItems | src/main/java/com/sidpaw/todobackend/service/TodoItemService.java:51-58 | every stored item exactly once, as its response, newest first; the list mapping is `toResponseDTOList` on a list without nulls (see `Mapper.ResponseListOfPresentRows`) |
| Service.GetTodoItemById | src/main/java/com/sidpaw/todobackend/service/TodoItemService.java:64-70 | the response of the item stored under the id, or nothing when the id is unknown |
| Service.GetTodoItemsByStatus | src/main/java/com/sidpaw/todobackend/service/TodoItemService.java:116-126 | unparseable text is an invalid status; "not done" lists exactly the NOT_DONE items with no due time or one after now; any other status lists exactly the items stored with it; each list is newest first |
| Service.PatchTodo | src/main/java/com/sidpaw/todobackend/service/TodoItemService.java:72-77 | an unknown id is not found; otherwise the result and the new table follow `UpdateTodoFields`; a rejected patch writes nothing; no patch creates, changes or leaves a PAST_DUE item |
| Scheduler.UpdatePastDueItems | src/main/java/com/sidpaw/todobackend/scheduler/TodoItemScheduler.java:28-48 | a store failure becomes "Failed to update past due items", carrying the cause, and leaves the store unchanged; otherwise overdue NOT_DONE items become PAST_DUE, and the result is the number of items that changed |
| Scheduler.SweepOneItem | src/test/java/com/sidpaw/todobackend/scheduler/TodoItemSchedulerTest.java:91-173 | the sweep makes an item PAST_DUE exactly when it already was, or was NOT_DONE with a due time before now; DONE items, items with no due time, and items due at or after now keep every field |
| Scheduler.SweepIdempotent | src/test/java/com/sidpaw/todobackend/scheduler/TodoItemSchedulerTest.java:176-194 | after a sweep no NOT_DONE item is overdue, and a second sweep at the same time changes nothing |
| Scheduler.SweepTwice | src/test/java/com/sidpaw/todobackend/scheduler/TodoItemSchedulerTest.java:176-194 | two sweeps in a row: the first reports the overdue count, the second reports zero and changes nothing |

## Left out

- HTTP layer: the controllers, status codes and exception handler. The model keeps the outcome kinds: NotFound, Locked, InvalidStatus and SchedulerFailed.
- Scheduling cadence, transactions and interleaving: every operation is one atomic step on the store.
- Clock and date formatting: `LocalDateTime.now()` is the parameter `now`, and times are integers.
- Failures of the database: a sweep's failure is the parameter `failure`, and the other operations do not fail in the store.
- Logging, and the vavr `Try` plumbing around the sweep.
- Bean validation: a create request's non-blank description of at most 1000 UTF-16 code units, and a patch's description of at most 1000 code units, are preconditions.
- `TodoStatus.from` is not part of this model's sources. It is modelled from its call sites and tests as a case-insensitive lookup against the display names.
- Entity.NotBlank: the `@NotBlank` validator is not part of this model's sources. The model follows Hibernate Validator, which accepts a text whose `trim()` is not empty, so every character up to U+0020 counts as blank.
- Model.LowerAscii: lower-cases only ASCII letters. Java's `toLowerCase` also folds non-ASCII letters.
- Entity.NewTodoItem: does not model the creation time as read from a clock. Creation is exactly `now`, which is at or before the later reading a test makes.
- Repository.TodoItemRepository.Save: requires an item that carries an id to be stored already. Merging a detached entity whose id is unknown is not modelled.
- Repository.TodoItemRepository.FindAllByOrderByCreationDatetimeDesc: does not fix the order among items with equal creation times, because the query does not fix it either.
- Repository.TodoItemRepository.FindNotDoneItems: is called with two arguments but declared with one (TodoItemService.java:121 against TodoItemRepository.java:29). The one-argument query, on `now` only, is modelled.
- Scheduler.UpdatePastDueItems: the sweep's comparison for an item due exactly at `now` is not visible, so the model fixes it as strict `due < now`. The model does not claim that the sweep and the "not done" listing (strict `due > now`) partition the NOT_DONE items at `due == now`.
- Service.PatchTodo: a patch to "past due" fails as an invalid status. That is what `convertToTodoStatus` throws (TodoItemService.java:108); it is not a separate forbidden-transition error.
- Service.UpdateTodoFields: does not set the description on the entity before the status is validated. See "Patch" above for why the store ends up the same.
