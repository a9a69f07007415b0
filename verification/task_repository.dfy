/**
 * The task repository: tasks are keyed by title on creation, deletion is a
 * small state machine over the task's state, the listings walk the task
 * table, and an update runs three ordered checks before overwriting a task
 * and rebuilding its tag list from tag names.
 *
 * The current time is the `clock` parameter of the operations that stamp it.
 */
module TaskRepository {
  import opened Entities
  import opened Tables
  import opened Store

  class TaskRepository {
    const context: KanbanContext

    constructor (context: KanbanContext)
      ensures this.context == context
    {
      this.context := context;
    }

    /**
     * Adds a task with the given title unless one exists (then Conflict with
     * the first such task's id). The new task is New, unassigned, without
     * description or tags, and stamped with `clock`: the assignee,
     * description and tags of the input are not stored.
     */
    method Create(task: TaskCreateDTO, clock: int) returns (response: Response, taskId: Id)
      requires context.Valid()
      modifies context`tasks, context`nextTaskId
      ensures context.Valid()
      ensures match FirstIndex(old(context.tasks), TaskHasTitle(task.title))
        case Some(i) =>
          && response == Conflict && taskId == old(context.tasks)[i].id
          && context.tasks == old(context.tasks) && context.nextTaskId == old(context.nextTaskId)
        case None =>
          && response == Created
          && taskId == old(context.nextTaskId)
          && context.tasks == old(context.tasks) + [Task(taskId, task.title, None, None, New, None, clock, clock)]
          && context.nextTaskId == old(context.nextTaskId) + 1
      ensures TitlesUnique(old(context.tasks)) ==> TitlesUnique(context.tasks)
      ensures response == Created ==>
        Read(taskId) == Some(TaskDetailsDTO(taskId, task.title, None, clock, None, None, New, clock))
    {
      var entity := FirstIndex(context.tasks, TaskHasTitle(task.title));
      if entity.None? {
        taskId := context.nextTaskId;
        var row := Task(taskId, task.title, None, None, New, None, clock, clock);
        TasksValidAppend(context.tasks, context.nextTaskId, row);
        context.tasks := context.tasks + [row];
        context.nextTaskId := context.nextTaskId + 1;
        FirstIndexOfOnly(context.tasks, TaskHasId(taskId), |context.tasks| - 1);
        response := Created;
      } else {
        response := Conflict;
        taskId := context.tasks[entity.value].id;
      }
    }

    /**
     * Deletes task `taskId` according to its state: a New task is removed,
     * an Active one becomes Removed (nothing else about it changes, not even
     * its state-update time), and Resolved, Closed or Removed tasks are left
     * alone with Conflict.
     */
    method Delete(taskId: Id) returns (response: Response)
      requires context.Valid()
      modifies context`tasks
      ensures context.Valid()
      ensures match FirstIndex(old(context.tasks), TaskHasId(taskId))
        case None =>
          response == NotFound && context.tasks == old(context.tasks)
        case Some(i) =>
          match old(context.tasks)[i].state
          case New =>
            response == Deleted && context.tasks == old(context.tasks)[..i] + old(context.tasks)[i + 1..]
          case Active =>
            response == Updated && context.tasks == old(context.tasks)[i := old(context.tasks)[i].(state := Removed)]
          case _ =>
            response == Conflict && context.tasks == old(context.tasks)
      ensures TitlesUnique(old(context.tasks)) ==> TitlesUnique(context.tasks)
      ensures response == Deleted ==> Read(taskId).None?
      ensures response == Updated ==> Read(taskId).Some? && Read(taskId).value.state == Removed
    {
      var entity := FirstIndex(context.tasks, TaskHasId(taskId));
      if entity.None? {
        return NotFound;
      }
      var i := entity.value;
      match context.tasks[i].state
      case Active =>
        var t := context.tasks[i].(state := Removed);
        TasksValidReplace(context.tasks, context.nextTaskId, i, t);
        context.tasks := context.tasks[i := t];
        response := Updated;
      case Resolved =>
        response := Conflict;
      case Closed =>
        response := Conflict;
      case Removed =>
        response := Conflict;
      case New =>
        TasksValidRemove(context.tasks, context.nextTaskId, i);
        context.tasks := context.tasks[..i] + context.tasks[i + 1..];
        response := Deleted;
    }

    /**
     * The detail view of task `taskId`, or None when there is no such task;
     * the assignee's name and the tag list are None when the task has none.
     */
    function Read(taskId: Id): (r: Option<TaskDetailsDTO>)
      reads context
      ensures r.None? <==> forall i | 0 <= i < |context.tasks| :: context.tasks[i].id != taskId
      ensures r.Some? ==>
        exists i | 0 <= i < |context.tasks| ::
          context.tasks[i].id == taskId && r.value == Details(context.users, context.tags, context.tasks[i])
    {
      match FirstIndex(context.tasks, TaskHasId(taskId))
      case None => None
      case Some(k) => Some(Details(context.users, context.tags, context.tasks[k]))
    }

    /** With unique keys, reading the key of the task at `i` yields that task's details. */
    lemma ReadRow(i: nat)
      requires TaskIdsUnique(context.tasks) && i < |context.tasks|
      ensures Read(context.tasks[i].id) == Some(Details(context.users, context.tags, context.tasks[i]))
    {
      FirstIndexOfOnly(context.tasks, TaskHasId(context.tasks[i].id), i);
    }

    /** Every task's summary, in store order. */
    method ReadAll() returns (list: seq<TaskDTO>)
      requires forall t | t in context.tasks :: Listable(context.users, t)
      ensures list == Summaries(context.users, context.tags, context.tasks)
    {
      var users, tags, tasks := context.users, context.tags, context.tasks;
      list := [];
      var i := 0;
      while i < |tasks|
        invariant 0 <= i <= |tasks|
        invariant list == Summaries(users, tags, tasks[..i])
      {
        SummariesPrefix(users, tags, tasks, i);
        list := list + [Summary(users, tags, tasks[i])];
        i := i + 1;
      }
      assert tasks[..i] == tasks;
    }

    /** The summaries of the tasks satisfying `p`, in store order. */
    method ReadAllWhere(p: Task -> bool) returns (list: seq<TaskDTO>)
      requires forall t | t in context.tasks && p(t) :: Listable(context.users, t)
      ensures list == Summaries(context.users, context.tags, Filter(context.tasks, p))
    {
      var users, tags, tasks := context.users, context.tags, context.tasks;
      list := [];
      var i := 0;
      while i < |tasks|
        invariant 0 <= i <= |tasks|
        invariant list == Summaries(users, tags, Filter(tasks[..i], p))
      {
        FilterPrefix(tasks, p, i);
        if p(tasks[i]) {
          SummariesSnoc(users, tags, Filter(tasks[..i], p), tasks[i]);
          list := list + [Summary(users, tags, tasks[i])];
        }
        i := i + 1;
      }
      assert tasks[..i] == tasks;
    }

    /** The summaries of the tasks in state `state`, in store order. */
    method ReadAllByState(state: State) returns (list: seq<TaskDTO>)
      requires forall t | t in context.tasks && t.state == state :: Listable(context.users, t)
      ensures list == Summaries(context.users, context.tags, Filter(context.tasks, InState(state)))
    {
      list := ReadAllWhere(InState(state));
    }

    /** The summaries of the Removed tasks: the same list as ReadAllByState(Removed). */
    method ReadAllRemoved() returns (list: seq<TaskDTO>)
      requires forall t | t in context.tasks && t.state == Removed :: Listable(context.users, t)
      ensures list == Summaries(context.users, context.tags, Filter(context.tasks, InState(Removed)))
    {
      list := ReadAllWhere(InState(Removed));
    }

    /**
     * The summaries of the tasks assigned to user `userId`. Every task must
     * have an assignee, since each one's assignee id is compared.
     */
    method ReadAllByUser(userId: Id) returns (list: seq<TaskDTO>)
      requires forall t | t in context.tasks :: Assignee(context.users, t).Some?
      requires forall t | t in context.tasks && t.assignedTo == Some(userId) :: t.tags.Some?
      ensures list == Summaries(context.users, context.tags, Filter(context.tasks, AssignedToUser(userId)))
    {
      list := ReadAllWhere(AssignedToUser(userId));
    }

    /**
     * For each task, one summary per tag of that task called `tag`. Every
     * task must have its tag collection, since each one's tags are walked.
     */
    method ReadAllByTag(tag: string) returns (list: seq<TaskDTO>)
      requires forall t | t in context.tasks :: ListableByTag(context.users, context.tags, tag, t)
      ensures list == TaggedWith(context.users, context.tags, context.tasks, tag)
    {
      var tasks := context.tasks;
      list := [];
      var i := 0;
      while i < |tasks|
        invariant 0 <= i <= |tasks|
        invariant list == TaggedWith(context.users, context.tags, tasks[..i], tag)
      {
        TaggedWithPrefix(context.users, context.tags, tasks, tag, i);
        var copies := CopiesPerTag(tasks[i], tag);
        list := list + copies;
        i := i + 1;
      }
      assert tasks[..i] == tasks;
    }

    /**
     * The inner loop of ReadAllByTag: one summary of `task` for each of its
     * tags called `tag`.
     */
    method CopiesPerTag(task: Task, tag: string) returns (copies: seq<TaskDTO>)
      requires ListableByTag(context.users, context.tags, tag, task)
      ensures copies == Repeat(Summary(context.users, context.tags, task), TagCount(context.tags, task, tag))
    {
      var names := TagNames(context.tags, task.tags.value);
      var summary := Summary(context.users, context.tags, task);
      copies := [];
      var j := 0;
      while j < |names|
        invariant 0 <= j <= |names|
        invariant copies == Repeat(summary, Count(names[..j], tag))
      {
        assert names[..j + 1][..j] == names[..j];
        if names[j] == tag {
          RepeatSnoc(summary, |copies|);
          copies := copies + [summary];
        }
        j := j + 1;
      }
      assert names[..j] == names;
    }

    /**
     * The ids of the stored tags whose names are in `names`, name by name
     * and in store order within a name (the tag rebuilding of Update).
     */
    method ResolveTagNames(names: seq<string>) returns (ids: seq<Id>)
      ensures ids == ResolveTags(context.tags, names)
    {
      ids := [];
      var i := 0;
      while i < |names|
        invariant 0 <= i <= |names|
        invariant ids == ResolveTags(context.tags, names[..i])
      {
        var tags := context.tags;
        var j := 0;
        while j < |tags|
          invariant 0 <= j <= |tags|
          invariant ids == ResolveTags(tags, names[..i]) + NamedTagIds(tags[..j], names[i])
        {
          assert tags[..j + 1][..j] == tags[..j];
          if tags[j].name == names[i] {
            ids := ids + [tags[j].id];
          }
          j := j + 1;
        }
        assert tags[..j] == tags;
        assert names[..i + 1][..i] == names[..i];
        i := i + 1;
      }
      assert names[..i] == names;
    }

    /**
     * Updates task `task.id` after three checks, in order: NotFound when it
     * does not exist, Conflict when another task has the new title,
     * BadRequest when the assignee id is missing or names no user. A failed
     * check changes nothing. Otherwise the assignee is set, the description
     * replaced when one is given, the tags replaced by the stored tags named
     * in the given list (unknown names are dropped), the title and state set,
     * and the state-update time stamped with `clock`.
     */
    method Update(task: TaskUpdateDTO, clock: int) returns (response: Response)
      requires context.Valid()
      modifies context`tasks
      ensures context.Valid()
      ensures match FirstIndex(old(context.tasks), TaskHasId(task.id))
        case None =>
          response == NotFound && context.tasks == old(context.tasks)
        case Some(i) =>
          if FirstIndex(old(context.tasks), OtherHasTitle(task.id, task.title)).Some? then
            response == Conflict && context.tasks == old(context.tasks)
          else if task.assignedToId.None? || FirstIndex(context.users, HasId(task.assignedToId.value)).None? then
            response == BadRequest && context.tasks == old(context.tasks)
          else
            var t := old(context.tasks)[i];
            && response == Updated
            && context.tasks == old(context.tasks)[i := t.(
                 title := task.title,
                 assignedTo := task.assignedToId,
                 description := if task.description.Some? then task.description else t.description,
                 tags := if task.tags.Some? then Some(ResolveTags(context.tags, task.tags.value)) else t.tags,
                 state := task.state,
                 stateUpdated := clock)]
      ensures TitlesUnique(old(context.tasks)) ==> TitlesUnique(context.tasks)
    {
      var entity := FirstIndex(context.tasks, TaskHasId(task.id));
      if entity.None? {
        response := NotFound;
      } else if FirstIndex(context.tasks, OtherHasTitle(task.id, task.title)).Some? {
        response := Conflict;
      } else if task.assignedToId.None? || FirstIndex(context.users, HasId(task.assignedToId.value)).None? {
        response := BadRequest;
      } else {
        var i := entity.value;
        var t := context.tasks[i];
        var assignedTo := if task.assignedToId.Some? then task.assignedToId else t.assignedTo;
        var description := if task.description.Some? then task.description else t.description;
        var tags := t.tags;
        if task.tags.Some? {
          var ids := ResolveTagNames(task.tags.value);
          tags := Some(ids);
        }
        var row := t.(
          title := task.title,
          assignedTo := assignedTo,
          description := description,
          tags := tags,
          state := task.state,
          stateUpdated := clock);
        TasksValidReplace(context.tasks, context.nextTaskId, i, row);
        TitlesUniqueRetitle(context.tasks, i, row);
        context.tasks := context.tasks[i := row];
        response := Updated;
      }
    }
  }
}
