/** The three persisted records: the user directory, the session and the
    per-user event state. */
module Records {
  import opened Lists

  /** A registered account; the password is kept in plain text. */
  datatype User = User(id: string, fullName: string, phone: string, password: string)

  /** The session record `{ userId }`. */
  datatype Session = Session(userId: string)

  /** One user's entry in the user-data map: saved and joined event ids in
      insertion order, and a comment per event id. */
  datatype EventState = EventState(saved: seq<string>, joined: seq<string>, comments: map<string, string>)

  /** The entry a user without one starts from. */
  const Empty := EventState([], [], map[])

  /** Neither list repeats an event id. */
  predicate WellFormed(d: EventState) {
    NoDuplicates(d.saved) && NoDuplicates(d.joined)
  }

  /** `all[userId] ?? { saved: [], joined: [], comments: {} }` */
  function StateOf(all: map<string, EventState>, userId: string): EventState {
    if userId in all then all[userId] else Empty
  }

  predicate HasId(users: seq<User>, id: string) {
    exists u :: u in users && u.id == id
  }

  /** `users.some(u => u.phone === phone)` */
  predicate PhoneTaken(users: seq<User>, phone: string) {
    exists u :: u in users && u.phone == phone
  }

  predicate UniqueIds(users: seq<User>) {
    forall i, j :: 0 <= i < j < |users| ==> users[i].id != users[j].id
  }

  predicate UniquePhones(users: seq<User>) {
    forall i, j :: 0 <= i < j < |users| ==> users[i].phone != users[j].phone
  }

  /** Appending a user whose id and phone are not yet in the directory keeps
      both unique. */
  lemma AppendKeepsUnique(users: seq<User>, u: User)
    requires UniqueIds(users) && UniquePhones(users)
    requires !HasId(users, u.id) && !PhoneTaken(users, u.phone)
    ensures UniqueIds(users + [u]) && UniquePhones(users + [u])
  {
    var all := users + [u];
    forall i, j | 0 <= i < j < |all|
      ensures all[i].id != all[j].id && all[i].phone != all[j].phone
    {
      if j == |users| {
        assert all[i] in users;
      }
    }
  }
}
