# Kanban data-access layer in Dafny

This project models the data-access layer of a small kanban board. Three
repositories work over one shared store:

- the **task repository**: create, delete, read, the listings and update;
- the **tag repository**: create, delete, read, list and rename;
- the **user repository**: create, list, read, update and delete.

The store (`Store.KanbanContext`) holds one table per entity as a sequence
in store order, plus one key counter per table. Its invariant `Valid()`
says three things:

- keys are positive, distinct and below the counter;
- user emails are unique;
- tag names are unique.

Every create, update and delete answers with an outcome code (`Created`,
`Updated`, `Deleted`, `NotFound`, `BadRequest`, `Conflict`). The reads
return views; an absent result (`null` in the source) is an `Option`. The current time is an explicit `clock`
parameter.

Files:

- `entities.dfy`: rows, input and view records, outcome codes and task states.
- `tables.dfy`: pure definitions over the tables. These are the lookups
  (`FirstIndex` stands for LINQ's `FirstOrDefault`), the table invariants
  with the lemmas that insert, remove and replace preserve them, and the
  views. The specification functions of the listings are here too, with
  their properties.
- `store.dfy`: the shared store class.
- `task_repository.dfy`, `tag_repository.dfy`, `user_repository.dfy`: one
  class per repository. Each holds a reference to the store, and its
  methods change the store's tables in place.

The model follows the code as written, including these behaviours:

- Deleting an Active task sets its state to Removed but does not touch its
  state-update time.
- A user update answers Conflict whenever the email is already stored. That
  includes the email of the user being updated.
- A tag counts as in use whenever its task collection is loaded, even when
  that collection is empty.
- A task update with no assignee id answers BadRequest, because looking up
  a missing key finds nothing. So the "keep the old assignee" branch of
  the assignment is never taken.
- Task creation stores only the title. The input's assignee, description
  and tags are ignored.

## Model

| member | source | states |
|---|---|---|
| TaskRepository.TaskRepository.Create | Assignment.Infrastructure/TaskRepository.cs:12-31 | If a task with the title exists: Conflict with the first such task's id, store unchanged. Otherwise: Created with the next key, and exactly one new row is appended (New, unassigned, no description or tags, both times = clock). Store invariants and title uniqueness are preserved. After Created, Read of the new id gives that row's details. |
| TaskRepository.TaskRepository.Delete | Assignment.Infrastructure/TaskRepository.cs:33-56 | Missing id: NotFound. New: the row is removed (Deleted) and Read then gives None. Active: only the state becomes Removed (Updated), and Read shows Removed. Resolved, Closed or Removed: Conflict, store unchanged. Store invariants and title uniqueness are preserved. |
| TaskRepository.TaskRepository.Read | Assignment.Infrastructure/TaskRepository.cs:58-85 | None exactly when no task has the id. Otherwise the details of a task with that id. |
| TaskRepository.TaskRepository.ReadRow | Assignment.Infrastructure/TaskRepository.cs:58-80 | With unique keys, reading any stored task's id gives that task's own details. This is the read-back of Create and Update. |
| TaskRepository.TaskRepository.ReadAll | Assignment.Infrastructure/TaskRepository.cs:87-95 | The list is the summary of every task, in store order. |
| TaskRepository.TaskRepository.ReadAllWhere | Assignment.Infrastructure/TaskRepository.cs:97-109 | The list is the summaries of exactly the tasks satisfying the filter, in store order. This is the loop shared by the filtered listings. |
| TaskRepository.TaskRepository.ReadAllByState | Assignment.Infrastructure/TaskRepository.cs:97-109 | The summaries of the tasks in the given state, in store order. |
| TaskRepository.TaskRepository.ReadAllRemoved | Assignment.Infrastructure/TaskRepository.cs:140-151 | The summaries of the Removed tasks, in store order. |
| TaskRepository.TaskRepository.ReadAllByUser | Assignment.Infrastructure/TaskRepository.cs:127-138 | The summaries of the tasks assigned to the user, in store order. The caller must ensure every task has an assignee. |
| TaskRepository.TaskRepository.ReadAllByTag | Assignment.Infrastructure/TaskRepository.cs:111-125 | For each task in store order, one summary per tag of that task with the given name. |
| TaskRepository.TaskRepository.CopiesPerTag | Assignment.Infrastructure/TaskRepository.cs:116-122 | The inner tag loop yields the task's summary repeated once per matching tag name. |
| TaskRepository.TaskRepository.ResolveTagNames | Assignment.Infrastructure/TaskRepository.cs:177-190 | The nested loops yield the ids of the stored tags named in the list, grouped name by name and in store order within each name. |
| TaskRepository.TaskRepository.Update | Assignment.Infrastructure/TaskRepository.cs:153-201 | The checks run in order: NotFound, then Conflict when another task has the title, then BadRequest when the assignee id is missing or unknown. A failed check changes nothing. On success only row i changes: assignee, title, state and stamp are set; the description is replaced only when given; the tags are replaced only when given, by the resolved stored tags. Store invariants and title uniqueness are preserved. |
| TagRepository.TagRepository.Create | Assignment.Infrastructure/TagRepository.cs:12-32 | If the name exists: Conflict with that tag's id, store unchanged. Otherwise: Created with the next key and one row appended. In both cases Read of the returned id gives that name. |
| TagRepository.TagRepository.Delete | Assignment.Infrastructure/TagRepository.cs:34-67 | Missing id: NotFound. Task collection loaded and not forced: Conflict, store unchanged. Otherwise the row is removed and Read gives None. |
| TagRepository.TagRepository.Read | Assignment.Infrastructure/TagRepository.cs:69-76 | None exactly when no tag has the id. Otherwise the id and name of a tag with that id. |
| TagRepository.TagRepository.ReadAll | Assignment.Infrastructure/TagRepository.cs:78-84 | One view per tag, position by position, with the same id and name. |
| TagRepository.TagRepository.Update | Assignment.Infrastructure/TagRepository.cs:86-108 | Missing id: NotFound. Another tag has the name: Conflict. Otherwise only that tag's name changes, and Read shows the new name. Name uniqueness is preserved. |
| UserRepository.UserRepository.Create | Assignment.Infrastructure/UserRepository.cs:14-30 | Email taken: Conflict with id -1, store unchanged. Otherwise: Created with the next key and one row appended, which Read returns. |
| UserRepository.UserRepository.ReadAll | Assignment.Infrastructure/UserRepository.cs:32-33 | One view per user, position by position, with the same id, name and email. |
| UserRepository.UserRepository.Read | Assignment.Infrastructure/UserRepository.cs:35-38 | None exactly when no user has the id. Otherwise the id, name and email of a user with that id. |
| UserRepository.UserRepository.Update | Assignment.Infrastructure/UserRepository.cs:40-57 | The email check comes first: Conflict when the email is stored, even as the user's own. Then NotFound. Otherwise only that user's name and email change, and Read shows them. Email uniqueness is preserved. |
| UserRepository.UserRepository.Delete | Assignment.Infrastructure/UserRepository.cs:59-75 | Missing id: NotFound. Loaded non-empty task collection and not forced: Conflict, store unchanged. Otherwise the row is removed and Read gives None. |
| Store.KanbanContext.constructor | Assignment.Infrastructure/KanbanContext.cs:5-11 | A new store is empty, its counters start at 1, and it satisfies the key and unique-index invariants. |
| Tables.FirstIndex | Assignment.Infrastructure/TagRepository.cs:14 | FirstOrDefault: the result is the least index satisfying the predicate, or None when no element does. |
| Tables.UsersValidAppend | Assignment.Infrastructure/KanbanContext.cs:39-41 | Appending a user with the next key and an unused email keeps keys and emails unique. |
| Tables.UsersValidRemove | Assignment.Infrastructure/UserRepository.cs:71 | Removing a user keeps the invariant, and the removed key is then absent. |
| Tables.UsersValidReplace | Assignment.Infrastructure/UserRepository.cs:52-53 | Overwriting a user (same key) with an unused email keeps the invariant, and the key still finds that row. |
| Tables.TagsValidAppend | Assignment.Infrastructure/KanbanContext.cs:48-50 | Appending a tag with the next key and an unused name keeps keys and names unique. |
| Tables.TagsValidRemove | Assignment.Infrastructure/TagRepository.cs:49 | Removing a tag keeps the invariant, and the removed key is then absent. |
| Tables.TagsValidReplace | Assignment.Infrastructure/TagRepository.cs:102 | Renaming a tag to a name no other tag has keeps the invariant, and the key still finds that row. |
| Tables.TasksValidAppend | Assignment.Infrastructure/TaskRepository.cs:19-21 | Appending a task with the next key keeps keys unique. With a fresh title it also keeps titles unique. |
| Tables.TasksValidRemove | Assignment.Infrastructure/TaskRepository.cs:48 | Removing a task keeps keys (and titles) unique, and the removed key is then absent. |
| Tables.TasksValidReplace | Assignment.Infrastructure/TaskRepository.cs:40 | Overwriting a task in place with the same key keeps keys unique (titles too when the title is kept), and the key still finds that row. |
| Tables.TitlesUniqueRetitle | Assignment.Infrastructure/TaskRepository.cs:163-166 | The update's conflict check (no other task has the title) is what keeps task titles unique. |
| Tables.Assignee | Assignment.Infrastructure/TaskRepository.cs:67-70 | The assignee is a stored user whose key is the task's assignee id. It is None only when the task is unassigned or the id matches no user. |
| Tables.TagNamesInOrder | Assignment.Infrastructure/TaskRepository.cs:74 | When every tag id of a task resolves, its name list has one entry per tag, in order, each the name of the tag with that id. |
| Tables.TagNamesMember | Assignment.Infrastructure/TaskRepository.cs:72-75 | A name is in a task's tag-name list exactly when some stored tag in the task's tag ids has that name. |
| Tables.NamedTagIdsMember | Assignment.Infrastructure/TaskRepository.cs:182-188 | The scan for one name yields exactly the ids of the stored tags with that name. |
| Tables.ResolveTagsMember | Assignment.Infrastructure/TaskRepository.cs:177-190 | An id is in the rebuilt tag list exactly when it is a stored tag's id and that tag's name is in the given list. |
| Tables.ResolvedTagNames | Assignment.Infrastructure/TaskRepository.cs:177-190 | After an update's tag rebuild, a task is tagged with a name exactly when the name was given and a stored tag has it. Unknown names are dropped. |
| Tables.FilterMember | Assignment.Infrastructure/TaskRepository.cs:100-106 | A row is kept by the listing filter exactly when it is stored and matches. |
| Tables.Summary | Assignment.Infrastructure/TaskRepository.cs:92 | A summary carries the task's id, title and state. For a listable task it also carries the assignee's name and the names of its tags. |
| Tables.Summaries | Assignment.Infrastructure/TaskRepository.cs:87-95 | One summary per row, position by position. |
| Tables.Details | Assignment.Infrastructure/TaskRepository.cs:60-79 | The details carry the task's id, title, description, creation time, state and stamp. The assignee name is present exactly when the assignee resolves; the tag list is present exactly when the task's tags are loaded. When present, they are the assignee's name and the names of the task's tags. |
| Tables.ListedOnce | Assignment.Infrastructure/TaskRepository.cs:140-151 | With unique keys, each matching task appears exactly once in a filtered listing. For example, a task moved to Removed appears once among the removed tasks. |
| Tables.ListedOnlyMatching | Assignment.Infrastructure/TaskRepository.cs:97-109 | Every entry of a filtered listing is the summary of a stored task that matches the filter. |
| Tables.TaggedOncePerTag | Assignment.Infrastructure/TaskRepository.cs:111-125 | With unique keys, a task appears in the by-tag listing as many times as it has tags with that name. |

## Left out

- The database engine, change tracking and saving. A successful operation's effect is visible at once.
- Key generation is a per-table counter. SQLite's exact key choice (including reuse after deletes) is not modelled.
- `Find` by key is modelled as the first row with that id, the same as `FirstOrDefault` on the id.
- The clock is the `clock` parameter instead of `DateTime.UtcNow`. The two readings in task creation are one value.
- The conversion of states to strings, and the length and required-ness limits of the entity configuration. Strings are unbounded here.
- The navigation collections `User.Tasks` and `Tag.Tasks`, which the delete guards read. Each is a stored field of the row that no operation of the model changes. The relationship fix-up that fills them when a task update links a task to a user or to tags is not modelled, nor are cascades on forced deletes. As a result, after `TaskRepository.Update` links a task to a tag or a user, the model still lets `TagRepository.Delete` or `UserRepository.Delete` remove that tag or user without `force`, where the program answers Conflict.
- The `NotImplementedException` branch of task deletion: every state has a case, so it cannot be reached.
- The repository interfaces and the DTO record declarations are only the entity and view types of `entities.dfy`.
- TaskRepository.TaskRepository.ReadAll: the source dereferences every task's assignee and tag collection and fails when one is missing. The model requires them instead (`Listable`). The same holds for ReadAllByState, ReadAllRemoved, ReadAllByUser (every assignee) and ReadAllByTag (every tag collection).
- Tables.Summary: for a task that is not listable, the spec function uses an empty name and an empty tag list. No method reaches this case.
- TaskRepository.TaskRepository.Update: its ensures does not restate the read-back. ReadRow gives it for the updated row.
- Task titles are not indexed by the store, so their uniqueness is not part of `Valid()`. The task operations only preserve it.
