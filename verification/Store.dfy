/** The tables the services update in place. */
module Store {
  import opened Accounts

  class Database {
    var users: seq<User>
    var sessions: seq<Session>
    var history: map<nat, seq<PasswordHash>>

    constructor (users: seq<User>, sessions: seq<Session>, history: map<nat, seq<PasswordHash>>)
      ensures Snapshot() == Db(users, sessions, history)
    {
      this.users, this.sessions, this.history := users, sessions, history;
    }

    /** The stored state as a value. */
    ghost function Snapshot(): Db
      reads this
    {
      Db(users, sessions, history)
    }
  }
}
