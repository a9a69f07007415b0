/**
 * The shared store the three repositories work on: one table per entity,
 * kept in store order, and one id counter per table standing in for the
 * database's key generation.
 */
module Store {
  import opened Entities
  import opened Tables

  class KanbanContext {
    var users: seq<User>
    var tags: seq<Tag>
    var tasks: seq<Task>
    var nextUserId: Id
    var nextTagId: Id
    var nextTaskId: Id

    /**
     * What the store guarantees: keys are positive, distinct and below the
     * table's counter, and the unique indexes on user email and tag name
     * hold. Task titles are not indexed, so their uniqueness is not part of it.
     */
    ghost predicate Valid()
      reads this
    {
      && UsersValid(users, nextUserId)
      && TagsValid(tags, nextTagId)
      && TasksValid(tasks, nextTaskId)
    }

    /** An empty store whose first keys are 1. */
    constructor ()
      ensures Valid()
      ensures users == [] && tags == [] && tasks == []
      ensures nextUserId == 1 && nextTagId == 1 && nextTaskId == 1
    {
      users, tags, tasks := [], [], [];
      nextUserId, nextTagId, nextTaskId := 1, 1, 1;
    }
  }
}
