/**
 * The user repository: users are keyed by a unique email; a clash on
 * create yields the sentinel id -1, and deleting a user with assigned tasks
 * needs `force`.
 */
module UserRepository {
  import opened Entities
  import opened Tables
  import opened Store

  class UserRepository {
    const context: KanbanContext

    constructor (context: KanbanContext)
      ensures this.context == context
    {
      this.context := context;
    }

    /**
     * Adds a user unless the email is taken, in which case the answer is
     * (Conflict, -1) and nothing is inserted.
     */
    method Create(user: UserCreateDTO) returns (response: Response, userId: Id)
      requires context.Valid()
      modifies context`users, context`nextUserId
      ensures context.Valid()
      ensures (exists i | 0 <= i < |old(context.users)| :: old(context.users)[i].email == user.email) ==>
        && response == Conflict && userId == -1
        && context.users == old(context.users) && context.nextUserId == old(context.nextUserId)
      ensures (forall i | 0 <= i < |old(context.users)| :: old(context.users)[i].email != user.email) ==>
        && response == Created
        && userId == old(context.nextUserId)
        && context.users == old(context.users) + [User(userId, user.name, user.email, None)]
        && context.nextUserId == old(context.nextUserId) + 1
      ensures response == Created ==> Read(userId) == Some(UserDTO(userId, user.name, user.email))
      ensures response == Conflict ==> Read(userId).None?
    {
      if FirstIndex(context.users, HasEmail(user.email)).Some? {
        return Conflict, -1;
      }
      userId := context.nextUserId;
      UsersValidAppend(context.users, context.nextUserId, User(userId, user.name, user.email, None));
      context.users := context.users + [User(userId, user.name, user.email, None)];
      context.nextUserId := context.nextUserId + 1;
      FirstIndexOfOnly(context.users, HasId(userId), |context.users| - 1);
      response := Created;
    }

    /** One view per stored user, in store order. */
    function ReadAll(): (r: seq<UserDTO>)
      reads context
      ensures |r| == |context.users|
      ensures forall i | 0 <= i < |r| ::
        r[i].id == context.users[i].id && r[i].name == context.users[i].name && r[i].email == context.users[i].email
    {
      var users := context.users;
      seq(|users|, i requires 0 <= i < |users| => UserDTO(users[i].id, users[i].name, users[i].email))
    }

    /** The view of user `userId`, or None when there is no such user. */
    function Read(userId: Id): (r: Option<UserDTO>)
      reads context
      ensures r.None? <==> forall i | 0 <= i < |context.users| :: context.users[i].id != userId
      ensures r.Some? ==>
        && r.value.id == userId
        && exists i | 0 <= i < |context.users| ::
             context.users[i].id == userId && context.users[i].name == r.value.name && context.users[i].email == r.value.email
    {
      match FirstIndex(context.users, HasId(userId))
      case None => None
      case Some(k) => Some(UserDTO(context.users[k].id, context.users[k].name, context.users[k].email))
    }

    /**
     * Overwrites a user's name and email. The email check comes first and
     * also fires when the email already belongs to this very user.
     */
    method Update(user: UserUpdateDTO) returns (response: Response)
      requires context.Valid()
      modifies context`users
      ensures context.Valid()
      ensures (exists i | 0 <= i < |old(context.users)| :: old(context.users)[i].email == user.email) ==>
        response == Conflict && context.users == old(context.users)
      ensures (forall i | 0 <= i < |old(context.users)| :: old(context.users)[i].email != user.email) ==>
        match FirstIndex(old(context.users), HasId(user.id))
        case None =>
          response == NotFound && context.users == old(context.users)
        case Some(i) =>
          && response == Updated
          && context.users == old(context.users)[i := old(context.users)[i].(email := user.email, name := user.name)]
      ensures response == Updated ==> Read(user.id) == Some(UserDTO(user.id, user.name, user.email))
    {
      if FirstIndex(context.users, HasEmail(user.email)).Some? {
        return Conflict;
      }
      var entity := FirstIndex(context.users, HasId(user.id));
      if entity.None? {
        return NotFound;
      }
      var i := entity.value;
      var changed := context.users[i].(email := user.email, name := user.name);
      UsersValidReplace(context.users, context.nextUserId, i, changed);
      context.users := context.users[i := changed];
      response := Updated;
    }

    /**
     * Removes user `userId`. A user whose task collection is loaded and
     * non-empty is only removed when `force` is set; an unloaded collection
     * counts as no tasks.
     */
    method Delete(userId: Id, force: bool) returns (response: Response)
      requires context.Valid()
      modifies context`users
      ensures context.Valid()
      ensures match FirstIndex(old(context.users), HasId(userId))
        case None =>
          response == NotFound && context.users == old(context.users)
        case Some(i) =>
          var tasks := old(context.users)[i].tasks;
          if tasks.Some? && |tasks.value| > 0 && !force then
            response == Conflict && context.users == old(context.users)
          else
            response == Deleted && context.users == old(context.users)[..i] + old(context.users)[i + 1..]
      ensures response == Deleted ==> Read(userId).None?
    {
      var entity := FirstIndex(context.users, HasId(userId));
      if entity.None? {
        return NotFound;
      }
      var i := entity.value;
      var tasks := context.users[i].tasks;
      if tasks.Some? && |tasks.value| > 0 && !force {
        return Conflict;
      }
      UsersValidRemove(context.users, context.nextUserId, i);
      context.users := context.users[..i] + context.users[i + 1..];
      response := Deleted;
    }
  }
}
