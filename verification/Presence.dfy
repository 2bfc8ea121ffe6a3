/** Who is online (internal/server/presence/registry.go). */
module Presence {
  import opened Names

  /** A connection; two of them are the same endpoint only if they are the same object. */
  type Session = nat

  type Users = map<Name, Session>

  /** A username already taken is refused. */
  function Register(users: Users, session: Session, username: Name): (Users, bool) {
    if username in users then (users, false) else (users[username := session], true)
  }

  /** Only the owner's entry is removed. */
  function Unregister(users: Users, session: Session, username: Name): Users {
    if username in users && users[username] == session then users - {username} else users
  }

  /** A free name is taken for the session, and no other is touched; a connection that was refused, or replaced since,
      cannot take its successor offline; leaving undoes joining. */
  lemma OwnersOnly(users: Users, session: Session, username: Name, other: Session)
    ensures Register(users, session, username).1 <==> username !in users
    ensures !Register(users, session, username).1 ==> Register(users, session, username).0 == users
    ensures Register(users, session, username).1 ==>
              Register(users, session, username).0 == users + map[username := session]
    ensures !Register(users, session, username).1 && (username in users ==> users[username] != session) ==>
              Unregister(users, session, username) == users
    ensures Register(users, session, username).1 ==>
              && Unregister(Register(users, session, username).0, session, username) == users
              && (other != session ==>
                    Unregister(Register(users, session, username).0, other, username)
                    == Register(users, session, username).0)
  {
    if username !in users {
      assert users[username := session] - {username} == users;
    }
  }

  class Endpoint {
    const session: Session
    const username: Name

    constructor (session: Session, username: Name)
      ensures this.session == session && this.username == username
    {
      this.session, this.username := session, username;
    }
  }

  class Registry {
    var users: map<Name, Endpoint>

    /** Entries are filed under their own username, and one number names one endpoint. */
    ghost predicate Valid()
      reads this
    {
      && (forall u | u in users :: users[u].username == u)
      && (forall u, v | u in users && v in users && users[u].session == users[v].session :: users[u] == users[v])
    }

    function Model(): Users
      reads this
    {
      map u | u in users :: users[u].session
    }

    constructor ()
      ensures Valid() && Model() == map[]
    {
      users := map[];
    }

    method Join(endpoint: Endpoint) returns (registered: bool)
      requires Valid()
      requires forall u | u in users && users[u].session == endpoint.session :: users[u] == endpoint
      modifies this
      ensures Valid()
      ensures (Model(), registered) == Register(old(Model()), endpoint.session, endpoint.username)
    {
      var username := endpoint.username;
      if username in users { return false; }
      users := users[username := endpoint];
      assert Model() == old(Model())[username := endpoint.session];
      return true;
    }

    method Get(username: Name) returns (online: bool, endpoint: Endpoint?)
      ensures online == (username in Model())
      ensures online ==> endpoint != null && endpoint.session == Model()[username]
    {
      if username !in users { return false, null; }
      return true, users[username];
    }

    method Leave(endpoint: Endpoint)
      requires Valid()
      requires forall u | u in users && users[u].session == endpoint.session :: users[u] == endpoint
      modifies this
      ensures Valid()
      ensures Model() == Unregister(old(Model()), endpoint.session, endpoint.username)
    {
      if endpoint.username in users && users[endpoint.username] == endpoint {
        users := users - {endpoint.username};
      }
    }
  }
}
