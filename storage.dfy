/** The browser-local store: the user directory, the session and the
    per-user event state, each a field that the operations reassign the way
    the page scripts rewrite the stored record. */
module Storage {
  import opened Wrappers
  import opened Lists
  import opened Records
  import opened Transforms
  import opened Auth

  /** The ids of the static event catalog; the other catalog fields are
      display text. */
  const EventIds: seq<string> := ["e1", "e2", "e3"]

  /** The account seeded when the directory is empty. */
  const DemoUser := User("u_demo", "\U{06A9}\U{0627}\U{0631}\U{0628}\U{0631} \U{0646}\U{0645}\U{0648}\U{0646}\U{0647}",
                         "09120000000", "1234")

  /** What a click on a home-page event button leads to. */
  datatype ClickOutcome =
    | Ignored                    // not an event of the catalog
    | LoginRequired              // nobody is logged in: the page sends the visitor to the login form
    | Updated(state: EventState) // the user's new entry

  /** A transform that never introduces a duplicate event id. */
  ghost predicate KeepsWellFormed(patch: EventState -> EventState) {
    forall d :: WellFormed(d) ==> WellFormed(patch(d))
  }

  /** Writing one key twice leaves only the second write. */
  lemma OverwriteTwice(m: map<string, EventState>, k: string, a: EventState, b: EventState)
    ensures m[k := a][k := b] == m[k := b]
  {
  }

  lemma SetCommentKeepsWellFormed(patch: EventState -> EventState, eventId: string, text: string)
    requires forall d :: patch(d) == SetComment(d, eventId, text)
    ensures KeepsWellFormed(patch)
  {
    forall d | WellFormed(d) ensures WellFormed(patch(d)) {
      assert patch(d).saved == d.saved && patch(d).joined == d.joined;
    }
  }

  class Store {
    var users: seq<User>
    var session: Option<Session>
    var userData: map<string, EventState>

    /** Ids are non-empty and unique in the directory, phones are unique,
        and no entry of the user-data map repeats an event id in either
        list. */
    ghost predicate Valid()
      reads this
    {
      UniqueIds(users) && UniquePhones(users)
      && (forall i :: 0 <= i < |users| ==> users[i].id != "")
      && forall id :: id in userData ==> WellFormed(userData[id])
    }

    /** Storage holding none of the three records. */
    constructor ()
      ensures Valid() && users == [] && session == None && userData == map[]
    {
      users, session, userData := [], None, map[];
    }

    /** `getOrCreateUserData`: a missing entry is stored as the empty
        default; an existing one is returned as it is. */
    method GetOrCreateUserData(userId: string) returns (d: EventState)
      requires Valid()
      modifies this`userData
      ensures Valid()
      ensures userId in old(userData) ==> userData == old(userData)
      ensures userId !in old(userData) ==> userData == old(userData)[userId := Empty]
      ensures d == userData[userId] && WellFormed(d)
    {
      if userId !in userData {
        userData := userData[userId := Empty];
      }
      d := userData[userId];
    }

    /** `updateUserData`: the transform gets a copy of the entry (or of the
        empty default) and its result replaces that one entry. */
    method UpdateUserData(userId: string, patch: EventState -> EventState) returns (next: EventState)
      requires Valid() && KeepsWellFormed(patch)
      modifies this`userData
      ensures Valid()
      ensures next == patch(StateOf(old(userData), userId))
      ensures userData == old(userData)[userId := next]
    {
      var cur := StateOf(userData, userId);
      next := patch(cur);
      userData := userData[userId := next];
    }

    /** `currentUser`: the user the session names, or none when there is no
        session, its user id is empty, or no stored user has that id. */
    function CurrentUser(): (r: Option<User>)
      reads this
      ensures r.None? <==> session.None? || session.value.userId == "" || !HasId(users, session.value.userId)
      ensures r.Some? ==> r.value in users && r.value.id == session.value.userId
    {
      if session.None? || session.value.userId == "" then None
      else
        var sid := session.value.userId;
        match FindIndex(users, (u: User) => u.id == sid)
        case None => None
        case Some(i) => Some(users[i])
    }

    /** `clearSession`, the logout button. */
    method ClearSession()
      requires Valid()
      modifies this`session
      ensures Valid()
      ensures session == None
    {
      session := None;
    }

    /** The login form: on success the session names the user found. */
    method Login(phoneInput: string, password: string) returns (r: Result<User, LoginError>)
      requires Valid()
      modifies this`session
      ensures Valid()
      ensures r == Authenticate(users, phoneInput, password)
      ensures r.Success? ==> session == Some(Session(r.value.id)) && CurrentUser() == Some(r.value)
      ensures r.Failure? ==> session == old(session)
    {
      r := Authenticate(users, phoneInput, password);
      if r.Success? {
        session := Some(Session(r.value.id));
        assert r.value in users && r.value.id != "";
        CurrentUserIsUnique(r.value);
      }
    }

    /** With unique ids, the session names exactly one stored user. */
    lemma CurrentUserIsUnique(u: User)
      requires Valid() && u in users && session == Some(Session(u.id)) && u.id != ""
      ensures CurrentUser() == Some(u)
    {
      var v := CurrentUser().value;
      var i :| 0 <= i < |users| && users[i] == u;
      var j :| 0 <= j < |users| && users[j] == v;
      assert i == j;
    }

    /** The registration form. `id` stands for the generated id, which is
        required to collide with no stored id. A rejected form changes
        nothing; an accepted one appends the user, logs them in and gives
        them the empty entry. */
    method Register(id: string, fullNameInput: string, phoneInput: string, password: string, password2: string)
      returns (r: Result<User, RegisterError>)
      requires Valid()
      requires id != "" && !HasId(users, id) && id !in userData
      modifies this
      ensures Valid()
      ensures r == CheckRegistration(old(users), id, fullNameInput, phoneInput, password, password2)
      ensures r.Failure? ==> users == old(users) && session == old(session) && userData == old(userData)
      ensures r.Success? ==> users == old(users) + [r.value] && session == Some(Session(id))
                             && userData == old(userData)[id := Empty]
      ensures r.Success? ==> CurrentUser() == Some(r.value)
    {
      r := CheckRegistration(users, id, fullNameInput, phoneInput, password, password2);
      if r.Failure? {
        return;
      }
      AppendKeepsUnique(users, r.value);
      users := users + [r.value];
      session := Some(Session(id));
      var _ := GetOrCreateUserData(id);
      CurrentUserIsUnique(r.value);
    }

    /** Start-up: an empty directory is seeded with the demo account and its
        entry. */
    method SeedDemoUser()
      requires Valid()
      modifies this
      ensures Valid()
      ensures old(users) == [] ==>
                users == [DemoUser]
                && userData == (if DemoUser.id in old(userData) then old(userData) else old(userData)[DemoUser.id := Empty])
      ensures old(users) != [] ==> users == old(users) && userData == old(userData)
      ensures session == old(session)
    {
      if |users| == 0 {
        users := [DemoUser];
        var _ := GetOrCreateUserData(DemoUser.id);
      }
    }

    /** The home page's "save" button. */
    method SaveClicked(eventId: string) returns (outcome: ClickOutcome)
      requires Valid()
      modifies this`userData
      ensures Valid()
      ensures eventId !in EventIds ==> outcome == Ignored && userData == old(userData)
      ensures eventId in EventIds && CurrentUser().None? ==> outcome == LoginRequired && userData == old(userData)
      ensures eventId in EventIds && CurrentUser().Some? ==>
                var id := CurrentUser().value.id;
                outcome == Updated(ToggleSaved(StateOf(old(userData), id), eventId))
                && userData == old(userData)[id := outcome.state]
    {
      if eventId !in EventIds {
        return Ignored;
      }
      var u := CurrentUser();
      if u.None? {
        return LoginRequired;
      }
      var next := UpdateUserData(u.value.id, d => ToggleSaved(d, eventId));
      outcome := Updated(next);
    }

    /** The home page's "join" button. */
    method JoinClicked(eventId: string) returns (outcome: ClickOutcome)
      requires Valid()
      modifies this`userData
      ensures Valid()
      ensures eventId !in EventIds ==> outcome == Ignored && userData == old(userData)
      ensures eventId in EventIds && CurrentUser().None? ==> outcome == LoginRequired && userData == old(userData)
      ensures eventId in EventIds && CurrentUser().Some? ==>
                var id := CurrentUser().value.id;
                outcome == Updated(Join(StateOf(old(userData), id), eventId))
                && userData == old(userData)[id := outcome.state]
    {
      if eventId !in EventIds {
        return Ignored;
      }
      var u := CurrentUser();
      if u.None? {
        return LoginRequired;
      }
      var next := UpdateUserData(u.value.id, d => Join(d, eventId));
      outcome := Updated(next);
    }

    /** The user page's "remove" button, for the user the page was opened for. */
    method RemoveClicked(userId: string, eventId: string)
      requires Valid()
      modifies this`userData
      ensures Valid()
      ensures eventId == "" ==> userData == old(userData)
      ensures eventId != "" ==> userData == old(userData)[userId := Leave(StateOf(old(userData), userId), eventId)]
    {
      if eventId == "" {
        return;
      }
      var _ := UpdateUserData(userId, d => Leave(d, eventId));
    }

    /** The user page's "comment" button. `text` is what the prompt returned:
        `None` when it was cancelled. The entry is created before the prompt
        is shown, so a cancelled prompt still leaves one. */
    method CommentClicked(userId: string, eventId: string, text: Option<string>)
      requires Valid()
      modifies this`userData
      ensures Valid()
      ensures eventId == "" ==> userData == old(userData)
      ensures eventId != "" && text.None? ==> userData == old(userData)[userId := StateOf(old(userData), userId)]
      ensures eventId != "" && text.Some? ==>
                userData == old(userData)[userId := SetComment(StateOf(old(userData), userId), eventId, text.value)]
    {
      if eventId == "" {
        return;
      }
      // The entry read here supplies the text the prompt starts with.
      var _ := GetOrCreateUserData(userId);
      ghost var start := StateOf(old(userData), userId);
      assert userData == old(userData)[userId := start];
      if text.None? {
        return;
      }
      var patch := d => SetComment(d, eventId, text.value);
      SetCommentKeepsWellFormed(patch, eventId, text.value);
      assert StateOf(userData, userId) == start;
      var next := UpdateUserData(userId, patch);
      OverwriteTwice(old(userData), userId, start, next);
    }
  }
}
