/**
 * The records the kanban data-access layer works on: the three stored
 * entities (users, tags, tasks), the closed set of outcome codes every
 * repository operation returns, the task life-cycle states, and the
 * read-only views (DTOs) handed back to callers.
 *
 * Timestamps are plain integers supplied by the caller ("clock"); a null
 * reference or nullable value is an `Option`.
 */
module Entities {

  datatype Option<+T> = None | Some(value: T)

  /** A primary key assigned by the store. */
  type Id = int

  /** The outcome codes shared by the three repositories. */
  datatype Response = Created | Updated | Deleted | NotFound | BadRequest | Conflict

  /** The life-cycle state of a task. */
  datatype State = New | Active | Resolved | Closed | Removed

  /**
   * A stored user. `tasks` is the navigation collection of the tasks
   * assigned to the user: `None` when it is not loaded (null), otherwise
   * the ids of those tasks.
   */
  datatype User = User(id: Id, name: string, email: string, tasks: Option<seq<Id>>)

  /** A stored tag; `tasks` is its (possibly unloaded) task collection. */
  datatype Tag = Tag(id: Id, name: string, tasks: Option<seq<Id>>)

  /**
   * A stored task. `assignedTo` references a user by id, `tags` lists the
   * ids of its tags (`None` when the collection is null), `created` and
   * `stateUpdated` are clock readings.
   */
  datatype Task = Task(
    id: Id,
    title: string,
    assignedTo: Option<Id>,
    description: Option<string>,
    state: State,
    tags: Option<seq<Id>>,
    created: int,
    stateUpdated: int)

  // Inputs of the repository operations.

  datatype UserCreateDTO = UserCreateDTO(name: string, email: string)
  datatype UserUpdateDTO = UserUpdateDTO(id: Id, name: string, email: string)
  datatype TagCreateDTO = TagCreateDTO(name: string)
  datatype TagUpdateDTO = TagUpdateDTO(id: Id, name: string)
  datatype TaskCreateDTO = TaskCreateDTO(
    title: string,
    assignedToId: Option<Id>,
    description: Option<string>,
    tags: seq<string>)
  datatype TaskUpdateDTO = TaskUpdateDTO(
    id: Id,
    title: string,
    assignedToId: Option<Id>,
    description: Option<string>,
    tags: Option<seq<string>>,
    state: State)

  // Views returned to callers.

  datatype UserDTO = UserDTO(id: Id, name: string, email: string)
  datatype TagDTO = TagDTO(id: Id, name: string)

  /** The full view of one task; the assignee's name and the tag list may be null. */
  datatype TaskDetailsDTO = TaskDetailsDTO(
    id: Id,
    title: string,
    description: Option<string>,
    created: int,
    assignedToName: Option<string>,
    tags: Option<seq<string>>,
    state: State,
    stateUpdated: int)

  /** The summary view produced by the ReadAll* listings. */
  datatype TaskDTO = TaskDTO(id: Id, title: string, assignedToName: string, tags: seq<string>, state: State)
}
