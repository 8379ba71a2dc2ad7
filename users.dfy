/**
 * The user service of backend/services/user_service.go: registering a handle and
 * looking one up, over the session store of module Store.
 */
module Users {
  import opened Models
  import opened Store

  /** The timestamp of a fresh models.User: CreatedAt is a string field left at its zero value. */
  const ZeroTime: string := ""

  class UserService {
    const db: Database

    constructor (database: Database)
      ensures db == database
    {
      db := database;
    }

    /**
     * CreateUser: a handle that is already stored and non-empty is refused with the
     * stored user and "username already exists", and nothing is written. Otherwise
     * the store saves a user with only the handle set (id 0, zero timestamp), which
     * inserts a fresh row, or, for the stored empty handle, overwrites its timestamp;
     * the returned user is the unsaved one, so its id stays 0.
     */
    method CreateUser(username: string) returns (user: User, r: Outcome)
      requires db.Valid()
      modifies db
      ensures db.Valid()
      ensures db.games == old(db.games) && db.questions == old(db.questions)
      ensures old(db.GetUserByUsername(username)).Ok? && username != "" ==>
        && user == old(db.GetUserByUsername(username)).value
        && r == Fail(UsernameExists)
        && unchanged(db)
      ensures old(db.GetUserByUsername(username)).Err? ==>
        && user == User(0, username, ZeroTime) && r == Pass
        && db.users == old(db.users) + [User(old(db.lastUserId) + 1, username, ZeroTime)]
      ensures old(db.GetUserByUsername(username)).Ok? && username == "" ==>
        && user == User(0, username, ZeroTime) && r == Pass
        && |db.users| == |old(db.users)|
        && forall i | 0 <= i < |db.users| ::
             db.users[i] == if db.users[i].username == username then old(db.users)[i].(createdAt := ZeroTime) else old(db.users)[i]
      ensures db.GetUserByUsername(username).Ok?
      ensures r.Pass? ==> db.GetUserByUsername(username).value.createdAt == ZeroTime
    {
      var existingUser := db.GetUserByUsername(username);
      if existingUser.Ok? && existingUser.value.username != "" {
        return existingUser.value, Fail(UsernameExists);
      }
      user := User(0, username, ZeroTime);
      ghost var before := db.users;
      db.SaveUser(user);
      r := Pass;
      if existingUser.Ok? {
        var i := FindUser(before, username).value;
        forall j | 0 <= j < |db.users|
          ensures db.users[j] == if db.users[j].username == username then before[j].(createdAt := ZeroTime) else before[j]
        {
          if j != i {
            assert before[j].username != before[i].username;
          }
        }
      }
    }

    /** GetUser: the stored user with that handle, or not-found when there is none. */
    function GetUser(username: string): (r: Result<User>)
      reads db
      ensures r.Ok? <==> exists u | u in db.users :: u.username == username
      ensures r.Ok? ==> r.value in db.users && r.value.username == username
      ensures r.Err? ==> r.error == NotFound
    {
      db.GetUserByUsername(username)
    }
  }
}
