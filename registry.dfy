/** Lookups in the users table (the player registry). */
module Registry {
  import opened QuestTypes

  /** No two players share a username. Registration only inserts unseen names,
      so the store keeps this. */
  predicate UniqueUsernames(users: seq<User>)
  {
    forall i, j | 0 <= i < j < |users| :: users[i].username != users[j].username
  }

  /** No two players share an id (the id is the table's primary key). */
  predicate UniqueIds(users: seq<User>)
  {
    forall i, j | 0 <= i < j < |users| :: users[i].id != users[j].id
  }

  predicate Registered(users: seq<User>, username: string)
  {
    exists u :: u in users && u.username == username
  }

  /** The first users row with this username: what `SELECT ... WHERE username = ?`
      followed by `fetchone()` yields. */
  function FindUser(users: seq<User>, username: string): (r: Option<User>)
    ensures r.Some? ==> r.value in users && r.value.username == username
    ensures r.None? <==> !Registered(users, username)
    ensures r.Some? ==> exists i :: 0 <= i < |users| && users[i] == r.value
                                   && forall j | 0 <= j < i :: users[j].username != username
  {
    if users == [] then None
    else if users[0].username == username then Some(users[0])
    else FindUser(users[1..], username)
  }

  /** Under unique usernames the first match is the only match. */
  lemma FindUserUnique(users: seq<User>, u: User)
    requires UniqueUsernames(users)
    requires u in users
    ensures FindUser(users, u.username) == Some(u)
  {
    var r := FindUser(users, u.username);
    var i :| 0 <= i < |users| && users[i] == r.value
             && forall j | 0 <= j < i :: users[j].username != u.username;
    var k :| 0 <= k < |users| && users[k] == u;
    assert i == k;
  }

  /** Inserting an unseen username under the next id keeps usernames and ids
      unique, and a lookup of the new name then finds the new row. */
  lemma InsertKeepsUnique(users: seq<User>, u: User)
    requires UniqueUsernames(users) && UniqueIds(users)
    requires !Registered(users, u.username)
    requires u.id == NextUserId(users)
    ensures UniqueUsernames(users + [u]) && UniqueIds(users + [u])
    ensures FindUser(users + [u], u.username) == Some(u)
  {
    var users' := users + [u];
    forall i, j | 0 <= i < j < |users'| ensures users'[i].username != users'[j].username && users'[i].id != users'[j].id {
      if j == |users| {
        assert users'[i] in users;
      }
    }
    FindUserUnique(users', u);
  }

  /** `get_mole_id`: the id of the player with this username, if any. The source
      unpacks the row without a check, so a missing player there is a crash; its
      callers only reach it after the authenticate guard or a registration. */
  function GetMoleId(users: seq<User>, username: string): (r: Option<int>)
    ensures r.Some? <==> Registered(users, username)
    ensures r.Some? ==> exists u :: u in users && u.username == username && u.id == r.value
    ensures UniqueUsernames(users) ==>
              forall u | u in users && u.username == username :: r == Some(u.id)
  {
    match FindUser(users, username)
    case None => None
    case Some(u) =>
      assert UniqueUsernames(users) ==>
        forall v | v in users && v.username == username :: v == u by {
        if UniqueUsernames(users) {
          forall v | v in users && v.username == username ensures v == u {
            FindUserUnique(users, v);
          }
        }
      }
      Some(u.id)
  }

  /** The largest id in a non-empty users table. */
  function MaxUserId(users: seq<User>): (m: int)
    requires users != []
    ensures forall u | u in users :: u.id <= m
    ensures exists u :: u in users && u.id == m
  {
    if |users| == 1 then users[0].id
    else
      var rest := MaxUserId(users[1..]);
      if users[0].id >= rest then users[0].id else rest
  }

  /** The id SQLite gives the next inserted player: one more than the largest
      id in use, or 1 for an empty table. */
  function NextUserId(users: seq<User>): (id: int)
    ensures forall u | u in users :: u.id < id
    ensures users == [] ==> id == 1
    ensures users != [] ==> exists u :: u in users && u.id == id - 1
  {
    if users == [] then 1 else MaxUserId(users) + 1
  }
}
