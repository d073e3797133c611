/** The user store: registration inserts a user only when no user has the
    same email and always with role "user"; make-admin sets role "admin". */
module Users {
  import opened LabTypes

  type UserId = string

  datatype User = User(email: string, name: string, role: string)

  predicate EmailTaken(users: map<UserId, User>, email: string)
  {
    exists u :: u in users && users[u].email == email
  }

  /** No two users share an email: what registration's check keeps. */
  ghost predicate UniqueEmails(users: map<UserId, User>)
  {
    forall a, b :: a in users && b in users && users[a].email == users[b].email ==> a == b
  }

  /** `GET /api/users/admin/:email`: some user with that email has role
      "admin". The handler asks the first user it finds with that email;
      while emails are unique, any user found gives the same answer. */
  function IsAdmin(users: map<UserId, User>, email: string): (admin: bool)
    ensures admin ==> EmailTaken(users, email)
    ensures UniqueEmails(users) ==>
      forall u :: u in users && users[u].email == email ==> (admin <==> users[u].role == "admin")
  {
    exists u :: u in users && users[u].email == email && users[u].role == "admin"
  }

  /** The user store after a registration and the `insertedId` reported
      (None: "user already exists"). */
  datatype Registration = Registration(users: map<UserId, User>, insertedId: Option<UserId>)

  /** `POST /api/users` under the fresh id the database mints. */
  function Register(users: map<UserId, User>, id: UserId, u: User): (r: Registration)
    requires id !in users
    ensures EmailTaken(users, u.email) <==> r.insertedId.None?
    ensures r.insertedId.None? ==> r.users == users
    ensures r.insertedId.Some? ==>
      && r.insertedId.value == id
      && r.users == users[id := User(u.email, u.name, "user")]
  {
    if EmailTaken(users, u.email) then Registration(users, None)
    else Registration(users[id := u.(role := "user")], Some(id))
  }

  /** `PATCH /api/users/admin/:id`: set the role; reports whether a user matched. */
  function MakeAdmin(users: map<UserId, User>, id: UserId): (r: (map<UserId, User>, bool))
    ensures r.1 <==> id in users
    ensures id !in users ==> r.0 == users
    ensures id in users ==> r.0 == users[id := users[id].(role := "admin")]
  {
    if id in users then (users[id := users[id].(role := "admin")], true) else (users, false)
  }

  /** Registration keeps emails unique, and nobody becomes an admin by
      registering, whatever role the request body claims. */
  lemma {:induction false} RegisterKeepsInvariants(users: map<UserId, User>, id: UserId, u: User, email: string)
    requires id !in users && UniqueEmails(users)
    ensures UniqueEmails(Register(users, id, u).users)
    ensures IsAdmin(Register(users, id, u).users, email) <==> IsAdmin(users, email)
  {
    var after := Register(users, id, u).users;
    if !EmailTaken(users, u.email) {
      if IsAdmin(after, email) {
        var w :| w in after && after[w].email == email && after[w].role == "admin";
        assert w != id;
      }
      if IsAdmin(users, email) {
        var w :| w in users && users[w].email == email && users[w].role == "admin";
        assert w in after && after[w] == users[w];
      }
    }
  }

  /** Make-admin keeps emails unique and makes that user an admin. */
  lemma {:induction false} MakeAdminGrants(users: map<UserId, User>, id: UserId)
    requires UniqueEmails(users) && id in users
    ensures UniqueEmails(MakeAdmin(users, id).0)
    ensures IsAdmin(MakeAdmin(users, id).0, users[id].email)
  {
    var after := MakeAdmin(users, id).0;
    assert after[id].role == "admin";
    forall a, b | a in after && b in after && after[a].email == after[b].email ensures a == b {
      assert users[a].email == after[a].email && users[b].email == after[b].email;
    }
  }
}
