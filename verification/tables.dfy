/**
 * Pure functions over the three tables (sequences of rows in store order):
 * the lookups the repositories perform, the uniqueness properties the store
 * keeps, and the specifications of the task listings and of the tag-name
 * resolution done by a task update, with the lemmas about them.
 *
 * Specification functions over sequences recurse on the LAST element, so
 * that a loop walking a table front to back extends them one row at a time.
 */
module Tables {
  import opened Entities

  // ---------------------------------------------------------------------
  // Lookups

  /** The index of the first element satisfying `p` (LINQ's FirstOrDefault). */
  function FirstIndex<T>(s: seq<T>, p: T -> bool): (r: Option<nat>)
    ensures r.Some? ==> r.value < |s| && p(s[r.value])
    ensures r.Some? ==> forall j | 0 <= j < r.value :: !p(s[j])
    ensures r.None? ==> forall j | 0 <= j < |s| :: !p(s[j])
  {
    if |s| == 0 then None
    else if p(s[0]) then Some(0)
    else match FirstIndex(s[1..], p)
      case None => None
      case Some(k) => Some(k + 1)
  }

  function HasId(id: Id): User -> bool { (u: User) => u.id == id }
  function HasEmail(email: string): User -> bool { (u: User) => u.email == email }
  function TagHasId(id: Id): Tag -> bool { (g: Tag) => g.id == id }
  function TagHasName(name: string): Tag -> bool { (g: Tag) => g.name == name }
  function TaskHasId(id: Id): Task -> bool { (t: Task) => t.id == id }
  function TaskHasTitle(title: string): Task -> bool { (t: Task) => t.title == title }

  /** Some other task than `id` already has `title`. */
  function OtherHasTitle(id: Id, title: string): Task -> bool { (t: Task) => t.id != id && t.title == title }

  /** Some other tag than `id` already has `name`. */
  function OtherHasName(id: Id, name: string): Tag -> bool { (g: Tag) => g.id != id && g.name == name }

  function InState(state: State): Task -> bool { (t: Task) => t.state == state }
  function AssignedToUser(userId: Id): Task -> bool { (t: Task) => t.assignedTo == Some(userId) }

  /** When exactly one element satisfies `p`, FirstIndex finds it. */
  lemma FirstIndexOfOnly<T>(s: seq<T>, p: T -> bool, i: nat)
    requires i < |s| && p(s[i])
    requires forall j | 0 <= j < |s| && j != i :: !p(s[j])
    ensures FirstIndex(s, p) == Some(i)
  {
  }

  // ---------------------------------------------------------------------
  // Uniqueness and key ranges: what the store keeps for each table

  predicate UserIdsUnique(users: seq<User>) {
    forall i, j | 0 <= i < j < |users| :: users[i].id != users[j].id
  }

  predicate EmailsUnique(users: seq<User>) {
    forall i, j | 0 <= i < j < |users| :: users[i].email != users[j].email
  }

  predicate TagIdsUnique(tags: seq<Tag>) {
    forall i, j | 0 <= i < j < |tags| :: tags[i].id != tags[j].id
  }

  predicate TagNamesUnique(tags: seq<Tag>) {
    forall i, j | 0 <= i < j < |tags| :: tags[i].name != tags[j].name
  }

  predicate TaskIdsUnique(tasks: seq<Task>) {
    forall i, j | 0 <= i < j < |tasks| :: tasks[i].id != tasks[j].id
  }

  predicate TitlesUnique(tasks: seq<Task>) {
    forall i, j | 0 <= i < j < |tasks| :: tasks[i].title != tasks[j].title
  }

  /** User keys are positive, distinct and below the counter; emails are distinct. */
  predicate UsersValid(users: seq<User>, nextId: Id) {
    && 0 < nextId
    && (forall i | 0 <= i < |users| :: 0 < users[i].id < nextId)
    && UserIdsUnique(users)
    && EmailsUnique(users)
  }

  /** Tag keys are positive, distinct and below the counter; names are distinct. */
  predicate TagsValid(tags: seq<Tag>, nextId: Id) {
    && 0 < nextId
    && (forall i | 0 <= i < |tags| :: 0 < tags[i].id < nextId)
    && TagIdsUnique(tags)
    && TagNamesUnique(tags)
  }

  /** Task keys are positive, distinct and below the counter. */
  predicate TasksValid(tasks: seq<Task>, nextId: Id) {
    && 0 < nextId
    && (forall i | 0 <= i < |tasks| :: 0 < tasks[i].id < nextId)
    && TaskIdsUnique(tasks)
  }

  lemma UsersValidAppend(users: seq<User>, nextId: Id, u: User)
    requires UsersValid(users, nextId) && u.id == nextId
    requires forall i | 0 <= i < |users| :: users[i].email != u.email
    ensures UsersValid(users + [u], nextId + 1)
  {
    var r := users + [u];
    assert forall a | 0 <= a < |r| :: r[a] == if a < |users| then users[a] else u;
  }

  lemma TagsValidAppend(tags: seq<Tag>, nextId: Id, g: Tag)
    requires TagsValid(tags, nextId) && g.id == nextId
    requires forall i | 0 <= i < |tags| :: tags[i].name != g.name
    ensures TagsValid(tags + [g], nextId + 1)
  {
    var r := tags + [g];
    assert forall a | 0 <= a < |r| :: r[a] == if a < |tags| then tags[a] else g;
  }

  lemma TasksValidAppend(tasks: seq<Task>, nextId: Id, t: Task)
    requires TasksValid(tasks, nextId) && t.id == nextId
    ensures TasksValid(tasks + [t], nextId + 1)
    ensures TitlesUnique(tasks) && (forall i | 0 <= i < |tasks| :: tasks[i].title != t.title) ==>
            TitlesUnique(tasks + [t])
  {
    var r := tasks + [t];
    assert forall a | 0 <= a < |r| :: r[a] == if a < |tasks| then tasks[a] else t;
  }

  lemma UsersValidRemove(users: seq<User>, nextId: Id, i: nat)
    requires UsersValid(users, nextId) && i < |users|
    ensures UsersValid(users[..i] + users[i + 1..], nextId)
    ensures FirstIndex(users[..i] + users[i + 1..], HasId(users[i].id)).None?
  {
    var r := users[..i] + users[i + 1..];
    assert forall a | 0 <= a < |r| :: r[a] == users[if a < i then a else a + 1];
  }

  lemma TagsValidRemove(tags: seq<Tag>, nextId: Id, i: nat)
    requires TagsValid(tags, nextId) && i < |tags|
    ensures TagsValid(tags[..i] + tags[i + 1..], nextId)
    ensures FirstIndex(tags[..i] + tags[i + 1..], TagHasId(tags[i].id)).None?
  {
    var r := tags[..i] + tags[i + 1..];
    assert forall a | 0 <= a < |r| :: r[a] == tags[if a < i then a else a + 1];
  }

  lemma TasksValidRemove(tasks: seq<Task>, nextId: Id, i: nat)
    requires TasksValid(tasks, nextId) && i < |tasks|
    ensures TasksValid(tasks[..i] + tasks[i + 1..], nextId)
    ensures TitlesUnique(tasks) ==> TitlesUnique(tasks[..i] + tasks[i + 1..])
    ensures FirstIndex(tasks[..i] + tasks[i + 1..], TaskHasId(tasks[i].id)).None?
  {
    var r := tasks[..i] + tasks[i + 1..];
    assert forall a | 0 <= a < |r| :: r[a] == tasks[if a < i then a else a + 1];
  }

  /** Giving a user an email no user has keeps the table valid. */
  lemma UsersValidReplace(users: seq<User>, nextId: Id, i: nat, u: User)
    requires UsersValid(users, nextId) && i < |users| && u.id == users[i].id
    requires FirstIndex(users, HasEmail(u.email)).None?
    ensures UsersValid(users[i := u], nextId)
    ensures FirstIndex(users[i := u], HasId(u.id)) == Some(i)
  {
    var r := users[i := u];
    assert forall a | 0 <= a < |r| :: r[a] == if a == i then u else users[a];
    FirstIndexOfOnly(r, HasId(u.id), i);
  }

  /** Renaming a tag to a name no other tag has keeps the table valid. */
  lemma TagsValidReplace(tags: seq<Tag>, nextId: Id, i: nat, g: Tag)
    requires TagsValid(tags, nextId) && i < |tags| && g.id == tags[i].id
    requires FirstIndex(tags, OtherHasName(g.id, g.name)).None?
    ensures TagsValid(tags[i := g], nextId)
    ensures FirstIndex(tags[i := g], TagHasId(g.id)) == Some(i)
  {
    forall j | 0 <= j < |tags| && j != i
      ensures tags[j].name != g.name
    {
      assert !OtherHasName(g.id, g.name)(tags[j]);
    }
    var r := tags[i := g];
    assert forall a | 0 <= a < |r| :: r[a] == if a == i then g else tags[a];
    FirstIndexOfOnly(r, TagHasId(g.id), i);
  }

  /** Overwriting a task in place, keeping its key, keeps the table valid. */
  lemma TasksValidReplace(tasks: seq<Task>, nextId: Id, i: nat, t: Task)
    requires TasksValid(tasks, nextId) && i < |tasks| && t.id == tasks[i].id
    ensures TasksValid(tasks[i := t], nextId)
    ensures TitlesUnique(tasks) && t.title == tasks[i].title ==> TitlesUnique(tasks[i := t])
    ensures FirstIndex(tasks[i := t], TaskHasId(t.id)) == Some(i)
  {
    var r := tasks[i := t];
    assert forall a | 0 <= a < |r| :: r[a] == if a == i then t else tasks[a];
    FirstIndexOfOnly(r, TaskHasId(t.id), i);
  }

  /**
   * Retitling task `i` keeps titles unique when no other task has the new
   * title (the conflict check of a task update).
   */
  lemma TitlesUniqueRetitle(tasks: seq<Task>, i: nat, t: Task)
    requires TaskIdsUnique(tasks) && i < |tasks| && t.id == tasks[i].id
    requires FirstIndex(tasks, OtherHasTitle(t.id, t.title)).None?
    ensures TitlesUnique(tasks) ==> TitlesUnique(tasks[i := t])
  {
    forall j | 0 <= j < |tasks| && j != i
      ensures tasks[j].title != t.title
    {
      assert !OtherHasTitle(t.id, t.title)(tasks[j]);
    }
    var r := tasks[i := t];
    assert forall a | 0 <= a < |r| :: r[a] == if a == i then t else tasks[a];
  }

  // ---------------------------------------------------------------------
  // Resolving references

  /** The user a task is assigned to, if its reference resolves to a stored user. */
  function Assignee(users: seq<User>, t: Task): (r: Option<User>)
    ensures r.Some? ==> r.value in users && t.assignedTo == Some(r.value.id)
    ensures r.None? ==> t.assignedTo.None? || forall u | u in users :: u.id != t.assignedTo.value
  {
    if t.assignedTo.None? then None
    else match FirstIndex(users, HasId(t.assignedTo.value))
      case None => None
      case Some(k) => Some(users[k])
  }

  /** The names of the tags with the given ids, in the order of the ids. */
  function TagNames(tags: seq<Tag>, ids: seq<Id>): (names: seq<string>)
    ensures |names| <= |ids|
  {
    if ids == [] then []
    else
      TagNames(tags, ids[..|ids| - 1]) +
      match FirstIndex(tags, TagHasId(ids[|ids| - 1]))
        case None => []
        case Some(k) => [tags[k].name]
  }

  /**
   * When every id resolves, the names are position by position the names of
   * the tags carrying those ids (a projection of the task's tag list).
   */
  lemma {:induction false} TagNamesInOrder(tags: seq<Tag>, ids: seq<Id>)
    requires forall i | 0 <= i < |ids| :: FirstIndex(tags, TagHasId(ids[i])).Some?
    ensures |TagNames(tags, ids)| == |ids|
    ensures forall i | 0 <= i < |ids| ::
      exists k | 0 <= k < |tags| :: tags[k].id == ids[i] && TagNames(tags, ids)[i] == tags[k].name
  {
    if ids != [] {
      var init := ids[..|ids| - 1];
      var last := ids[|ids| - 1];
      assert forall i | 0 <= i < |init| :: init[i] == ids[i];
      TagNamesInOrder(tags, init);
      var m := FirstIndex(tags, TagHasId(last)).value;
      var names := TagNames(tags, ids);
      assert names == TagNames(tags, init) + [tags[m].name];
      forall i | 0 <= i < |ids|
        ensures exists k | 0 <= k < |tags| :: tags[k].id == ids[i] && names[i] == tags[k].name
      {
        if i == |ids| - 1 {
          assert tags[m].id == ids[i] && names[i] == tags[m].name;
        } else {
          assert init[i] == ids[i] && names[i] == TagNames(tags, init)[i];
        }
      }
    }
  }

  /** A tag name is listed exactly when a stored tag with that name is referenced. */
  lemma {:induction false} TagNamesMember(tags: seq<Tag>, ids: seq<Id>, name: string)
    requires TagIdsUnique(tags)
    ensures name in TagNames(tags, ids) <==>
            exists k | 0 <= k < |tags| :: tags[k].id in ids && tags[k].name == name
  {
    if ids != [] {
      var init := ids[..|ids| - 1];
      var last := ids[|ids| - 1];
      assert ids == init + [last];
      TagNamesMember(tags, init, name);
      match FirstIndex(tags, TagHasId(last))
      case None =>
        assert forall k | 0 <= k < |tags| :: tags[k].id != last;
      case Some(m) =>
        assert tags[m].id == last;
        if name !in TagNames(tags, init) && name != tags[m].name {
          forall k | 0 <= k < |tags| && tags[k].id in ids
            ensures tags[k].name != name
          {
            if tags[k].id == last {
              assert k == m;
            }
          }
        }
    }
  }

  // ---------------------------------------------------------------------
  // Task update: resolving tag names against the tag table

  /** The ids of the stored tags called `name`, in store order (the inner loop of the update). */
  function NamedTagIds(tags: seq<Tag>, name: string): seq<Id>
  {
    if tags == [] then []
    else
      var last := tags[|tags| - 1];
      NamedTagIds(tags[..|tags| - 1], name) + (if last.name == name then [last.id] else [])
  }

  /** An id is found for `name` exactly when a stored tag with that id has that name. */
  lemma {:induction false} NamedTagIdsMember(tags: seq<Tag>, name: string, id: Id)
    ensures id in NamedTagIds(tags, name) <==> exists k | 0 <= k < |tags| :: tags[k].id == id && tags[k].name == name
  {
    if tags != [] {
      var init := tags[..|tags| - 1];
      assert tags == init + [tags[|tags| - 1]];
      NamedTagIdsMember(init, name, id);
    }
  }

  /** For each name in turn, the ids of the stored tags with that name; unknown names give nothing. */
  function ResolveTags(tags: seq<Tag>, names: seq<string>): (r: seq<Id>)
  {
    if names == [] then []
    else ResolveTags(tags, names[..|names| - 1]) + NamedTagIds(tags, names[|names| - 1])
  }

  /** A tag id is in the resolved list exactly when that tag's name was asked for. */
  lemma {:induction false} ResolveTagsMember(tags: seq<Tag>, names: seq<string>, id: Id)
    ensures id in ResolveTags(tags, names) <==>
            exists k | 0 <= k < |tags| :: tags[k].id == id && tags[k].name in names
  {
    if names != [] {
      var init := names[..|names| - 1];
      var last := names[|names| - 1];
      assert names == init + [last];
      ResolveTagsMember(tags, init, id);
      NamedTagIdsMember(tags, last, id);
      if id in ResolveTags(tags, names) {
        if id !in ResolveTags(tags, init) {
          assert id in NamedTagIds(tags, last);
        }
      } else {
        forall k | 0 <= k < |tags| && tags[k].id == id
          ensures tags[k].name !in names
        {
          assert tags[k].name != last;
        }
      }
    }
  }

  /**
   * After an update that replaces a task's tags by `ResolveTags(tags, names)`,
   * the task's tag names are exactly the requested names that exist in the
   * tag table: unknown names are dropped silently.
   */
  lemma ResolvedTagNames(tags: seq<Tag>, names: seq<string>, name: string)
    requires TagIdsUnique(tags)
    ensures name in TagNames(tags, ResolveTags(tags, names)) <==>
            name in names && exists k | 0 <= k < |tags| :: tags[k].name == name
  {
    var ids := ResolveTags(tags, names);
    TagNamesMember(tags, ids, name);
    forall k | 0 <= k < |tags|
      ensures tags[k].id in ids <==> tags[k].name in names
    {
      ResolveTagsMember(tags, names, tags[k].id);
    }
  }

  // ---------------------------------------------------------------------
  // Task listings

  /** The elements of `s` satisfying `p`, in order. */
  function Filter<T>(s: seq<T>, p: T -> bool): seq<T>
  {
    if s == [] then []
    else
      var last := s[|s| - 1];
      Filter(s[..|s| - 1], p) + (if p(last) then [last] else [])
  }

  /** An element survives filtering exactly when it was there and satisfies `p`. */
  lemma {:induction false} FilterMember<T>(s: seq<T>, p: T -> bool, x: T)
    ensures x in Filter(s, p) <==> x in s && p(x)
  {
    if s != [] {
      var init := s[..|s| - 1];
      assert s == init + [s[|s| - 1]];
      FilterMember(init, p, x);
    }
  }

  /** Filtering a prefix extended by one element. */
  lemma FilterPrefix<T>(s: seq<T>, p: T -> bool, i: nat)
    requires i < |s|
    ensures Filter(s[..i + 1], p) == Filter(s[..i], p) + (if p(s[i]) then [s[i]] else [])
  {
    assert s[..i + 1][..i] == s[..i];
  }

  /** Extending the rows by one extends the listing by that row's summary. */
  lemma SummariesSnoc(users: seq<User>, tags: seq<Tag>, rows: seq<Task>, t: Task)
    ensures Summaries(users, tags, rows + [t]) == Summaries(users, tags, rows) + [Summary(users, tags, t)]
  {
    assert (rows + [t])[..|rows|] == rows;
  }

  /**
   * A task can be listed when its assignee resolves and its tag collection
   * is present: the listings dereference both, so the listing operations
   * require this of every task they summarise.
   */
  predicate Listable(users: seq<User>, t: Task) {
    Assignee(users, t).Some? && t.tags.Some?
  }

  /**
   * The summary view of a task. Only listable tasks are ever summarised;
   * for the others the assignee name and the tag list fall back to empty,
   * which keeps the listing specifications total.
   */
  function Summary(users: seq<User>, tags: seq<Tag>, t: Task): (v: TaskDTO)
    ensures v.id == t.id && v.title == t.title && v.state == t.state
    ensures Listable(users, t) ==>
      v.assignedToName == Assignee(users, t).value.name && v.tags == TagNames(tags, t.tags.value)
  {
    var name := match Assignee(users, t)
      case None => ""
      case Some(u) => u.name;
    var names := match t.tags
      case None => []
      case Some(ids) => TagNames(tags, ids);
    TaskDTO(t.id, t.title, name, names, t.state)
  }

  /** One summary per row, in order. */
  function Summaries(users: seq<User>, tags: seq<Tag>, rows: seq<Task>): (r: seq<TaskDTO>)
    ensures |r| == |rows|
    ensures forall i | 0 <= i < |rows| :: r[i] == Summary(users, tags, rows[i])
  {
    if rows == [] then []
    else Summaries(users, tags, rows[..|rows| - 1]) + [Summary(users, tags, rows[|rows| - 1])]
  }

  /** Extending a prefix of the rows by one row extends its listing by that row's summary. */
  lemma SummariesPrefix(users: seq<User>, tags: seq<Tag>, rows: seq<Task>, i: nat)
    requires i < |rows|
    ensures Summaries(users, tags, rows[..i + 1]) == Summaries(users, tags, rows[..i]) + [Summary(users, tags, rows[i])]
  {
    assert rows[..i + 1][..i] == rows[..i];
  }

  /**
   * The detail view of a task: its own fields, the name of its assignee
   * when the reference resolves, and its tag names when its tag collection
   * is present.
   */
  function Details(users: seq<User>, tags: seq<Tag>, t: Task): (d: TaskDetailsDTO)
    ensures d.id == t.id && d.title == t.title && d.description == t.description
    ensures d.created == t.created && d.state == t.state && d.stateUpdated == t.stateUpdated
    ensures d.assignedToName.Some? <==> Assignee(users, t).Some?
    ensures d.tags.Some? <==> t.tags.Some?
    ensures Assignee(users, t).Some? ==> d.assignedToName == Some(Assignee(users, t).value.name)
    ensures t.tags.Some? ==> d.tags == Some(TagNames(tags, t.tags.value))
  {
    var name := match Assignee(users, t)
      case None => None
      case Some(u) => Some(u.name);
    var list := match t.tags
      case None => None
      case Some(ids) => Some(TagNames(tags, ids));
    TaskDetailsDTO(t.id, t.title, t.description, t.created, name, list, t.state, t.stateUpdated)
  }

  /** The number of views carrying task id `id`. */
  function Occurrences(views: seq<TaskDTO>, id: Id): nat
  {
    if views == [] then 0
    else Occurrences(views[..|views| - 1], id) + (if views[|views| - 1].id == id then 1 else 0)
  }

  lemma {:induction false} OccurrencesAppend(a: seq<TaskDTO>, b: seq<TaskDTO>, id: Id)
    ensures Occurrences(a + b, id) == Occurrences(a, id) + Occurrences(b, id)
  {
    if b != [] {
      var init := b[..|b| - 1];
      assert (a + b)[..|a + b| - 1] == a + init;
      assert (a + b)[|a + b| - 1] == b[|b| - 1];
      OccurrencesAppend(a, init, id);
    } else {
      assert a + b == a;
    }
  }

  /** The number of rows carrying task id `id`. */
  function IdCount(rows: seq<Task>, id: Id): nat
  {
    if rows == [] then 0
    else IdCount(rows[..|rows| - 1], id) + (if rows[|rows| - 1].id == id then 1 else 0)
  }

  /** A listing shows a task id as often as the listed rows carry it. */
  lemma {:induction false} SummariesKeepIds(users: seq<User>, tags: seq<Tag>, rows: seq<Task>, id: Id)
    ensures Occurrences(Summaries(users, tags, rows), id) == IdCount(rows, id)
  {
    if rows != [] {
      var init := rows[..|rows| - 1];
      var views := Summaries(users, tags, rows);
      assert views[..|views| - 1] == Summaries(users, tags, init);
      SummariesKeepIds(users, tags, init, id);
    }
  }

  /** A table without task id `id` keeps none after filtering. */
  lemma {:induction false} FilteredAbsent(rows: seq<Task>, p: Task -> bool, id: Id)
    requires forall i | 0 <= i < |rows| :: rows[i].id != id
    ensures IdCount(Filter(rows, p), id) == 0
  {
    if rows != [] {
      var init := rows[..|rows| - 1];
      var last := rows[|rows| - 1];
      assert rows == init + [last];
      FilteredAbsent(init, p, id);
      var f := Filter(rows, p);
      if p(last) {
        assert f[..|f| - 1] == Filter(init, p);
      } else {
        assert f == Filter(init, p);
      }
    }
  }

  /** Filtering extends by the last row exactly when it satisfies `p`. */
  lemma FilterSnoc(rows: seq<Task>, p: Task -> bool, id: Id)
    requires rows != []
    ensures IdCount(Filter(rows, p), id) ==
            IdCount(Filter(rows[..|rows| - 1], p), id) + (if p(rows[|rows| - 1]) && rows[|rows| - 1].id == id then 1 else 0)
  {
    var init := rows[..|rows| - 1];
    var f := Filter(rows, p);
    if p(rows[|rows| - 1]) {
      assert f[..|f| - 1] == Filter(init, p);
    } else {
      assert f == Filter(init, p);
    }
  }

  /** Filtering on `p` keeps every row satisfying `p` exactly once, when task ids are unique. */
  lemma {:induction false} FilteredOnce(rows: seq<Task>, p: Task -> bool, j: nat)
    requires TaskIdsUnique(rows)
    requires j < |rows| && p(rows[j])
    ensures IdCount(Filter(rows, p), rows[j].id) == 1
  {
    var n := |rows| - 1;
    FilterSnoc(rows, p, rows[j].id);
    if j == n {
      FilteredAbsent(rows[..n], p, rows[n].id);
    } else {
      assert rows[..n][j] == rows[j];
      FilteredOnce(rows[..n], p, j);
    }
  }

  /**
   * A listing that filters on `p` shows every task satisfying `p` exactly
   * once, when task ids are unique.
   */
  lemma ListedOnce(users: seq<User>, tags: seq<Tag>, rows: seq<Task>, p: Task -> bool, j: nat)
    requires TaskIdsUnique(rows)
    requires j < |rows| && p(rows[j])
    ensures Occurrences(Summaries(users, tags, Filter(rows, p)), rows[j].id) == 1
  {
    SummariesKeepIds(users, tags, Filter(rows, p), rows[j].id);
    FilteredOnce(rows, p, j);
  }

  /** Every view in a listing that filters on `p` belongs to a row satisfying `p`. */
  lemma ListedOnlyMatching(users: seq<User>, tags: seq<Tag>, rows: seq<Task>, p: Task -> bool, k: nat)
    requires k < |Summaries(users, tags, Filter(rows, p))|
    ensures exists j | 0 <= j < |rows| :: p(rows[j]) && rows[j] == Filter(rows, p)[k]
    ensures Summaries(users, tags, Filter(rows, p))[k] == Summary(users, tags, Filter(rows, p)[k])
  {
    var x := Filter(rows, p)[k];
    FilterMember(rows, p, x);
  }

  /** `n` copies of `x`. */
  function Repeat<T>(x: T, n: nat): (r: seq<T>)
    ensures |r| == n && forall i | 0 <= i < n :: r[i] == x
  {
    seq(n, _ => x)
  }

  lemma {:induction false} OccurrencesRepeat(v: TaskDTO, n: nat, id: Id)
    ensures Occurrences(Repeat(v, n), id) == if v.id == id then n else 0
  {
    if n > 0 {
      assert Repeat(v, n)[..n - 1] == Repeat(v, n - 1);
      OccurrencesRepeat(v, n - 1, id);
    }
  }

  /** A task can be listed by tag `name`: its tags are present, and when one is called `name` its assignee resolves. */
  predicate ListableByTag(users: seq<User>, tags: seq<Tag>, name: string, t: Task) {
    t.tags.Some? && (name in TagNames(tags, t.tags.value) ==> Assignee(users, t).Some?)
  }

  /** The number of times `name` occurs in `names`. */
  function Count(names: seq<string>, name: string): nat
  {
    if names == [] then 0
    else Count(names[..|names| - 1], name) + (if names[|names| - 1] == name then 1 else 0)
  }

  /** The number of a task's tags that are called `name`. */
  function TagCount(tags: seq<Tag>, t: Task, name: string): nat
  {
    match t.tags
    case None => 0
    case Some(ids) => Count(TagNames(tags, ids), name)
  }

  /** The by-tag listing: each task once for each of its tags called `name`. */
  function TaggedWith(users: seq<User>, tags: seq<Tag>, rows: seq<Task>, name: string): seq<TaskDTO>
  {
    if rows == [] then []
    else
      var last := rows[|rows| - 1];
      TaggedWith(users, tags, rows[..|rows| - 1], name) + Repeat(Summary(users, tags, last), TagCount(tags, last, name))
  }

  /** Extending a prefix of the rows by one task extends the by-tag listing by that task's copies. */
  lemma TaggedWithPrefix(users: seq<User>, tags: seq<Tag>, rows: seq<Task>, name: string, i: nat)
    requires i < |rows|
    ensures TaggedWith(users, tags, rows[..i + 1], name) ==
            TaggedWith(users, tags, rows[..i], name) + Repeat(Summary(users, tags, rows[i]), TagCount(tags, rows[i], name))
  {
    assert rows[..i + 1][..i] == rows[..i];
  }

  lemma RepeatSnoc<T>(x: T, n: nat)
    ensures Repeat(x, n) + [x] == Repeat(x, n + 1)
  {
  }

  lemma {:induction false} TaggedAbsent(users: seq<User>, tags: seq<Tag>, rows: seq<Task>, name: string, id: Id)
    requires forall i | 0 <= i < |rows| :: rows[i].id != id
    ensures Occurrences(TaggedWith(users, tags, rows, name), id) == 0
  {
    if rows != [] {
      var init := rows[..|rows| - 1];
      var last := rows[|rows| - 1];
      TaggedAbsent(users, tags, init, name, id);
      var tail := Repeat(Summary(users, tags, last), TagCount(tags, last, name));
      OccurrencesAppend(TaggedWith(users, tags, init, name), tail, id);
      OccurrencesRepeat(Summary(users, tags, last), TagCount(tags, last, name), id);
    }
  }

  /**
   * The by-tag listing shows a task once for each of its tags called `name`
   * (so not at all when it has none), when task ids are unique.
   */
  lemma {:induction false} TaggedOncePerTag(users: seq<User>, tags: seq<Tag>, rows: seq<Task>, name: string, j: nat)
    requires TaskIdsUnique(rows)
    requires j < |rows|
    ensures Occurrences(TaggedWith(users, tags, rows, name), rows[j].id) == TagCount(tags, rows[j], name)
  {
    var n := |rows| - 1;
    var id := rows[j].id;
    var init := rows[..n];
    var last := rows[n];
    var front := TaggedWith(users, tags, init, name);
    var tail := Repeat(Summary(users, tags, last), TagCount(tags, last, name));
    assert TaggedWith(users, tags, rows, name) == front + tail;
    OccurrencesAppend(front, tail, id);
    OccurrencesRepeat(Summary(users, tags, last), TagCount(tags, last, name), id);
    if j == n {
      assert forall i | 0 <= i < |init| :: init[i].id != id;
      TaggedAbsent(users, tags, init, name, id);
      assert Occurrences(tail, id) == TagCount(tags, rows[j], name);
    } else {
      assert init[j] == rows[j];
      assert TaskIdsUnique(init);
      TaggedOncePerTag(users, tags, init, name, j);
      assert Occurrences(tail, id) == 0;
    }
  }
}
