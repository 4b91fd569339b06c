/** The request handlers of the mood-diary back end, as methods of one
    in-memory document store: the `user` and `entries` collections, the
    `counters` collection, and the password hasher the handlers call.  The
    caller's identity (the token's subject) is passed in as a string; the
    clock's date and time and the hash salt are parameters too. */
module DiaryStore {
  import opened DiaryRecords

  /** Names of the two counter documents. */
  const UserCounter: string := "userid"
  const EntryCounter: string := "entryid"

  /** What POST /register answers. */
  datatype RegisterOutcome =
    | Registered          // 201 "User added successfully"
    | UsernameTaken       // 400 "A user with that name already exists"
    | EmailTaken          // 400 "A user with that email already exists"
    | BlankField          // the handler returns None: a bare `null` body
    | UserInsertFailed    // 404 "User could not be added" (the insert raised)
    | UserCounterMissing  // no `userid` counter document: uncaught error
  {
    function Status(): int {
      match this
      case Registered => 201
      case UsernameTaken => 400
      case EmailTaken => 400
      case BlankField => 200
      case UserInsertFailed => 404
      case UserCounterMissing => 500
    }
  }

  /** What POST /login answers. */
  datatype LoginOutcome =
    | LoggedIn(token: Token)  // 200 with the token
    | InvalidCredentials      // 401 "Invalid username and/or password."
  {
    function Status(): int {
      if LoggedIn? then 200 else 401
    }
  }

  /** What POST /entry answers. */
  datatype CreateOutcome =
    | EntryAdded           // 201 "Entry added successfully"
    | EntryInsertFailed    // 500 "Failed to insert entry to database"
    | EntryCounterMissing  // no `entryid` counter document: uncaught error
  {
    function Status(): int {
      if EntryAdded? then 201 else 500
    }
  }

  /** What DELETE /entry answers. */
  datatype DeleteLatestOutcome =
    | LatestDeleted    // 204 " Entry Deleted"
    | NothingDeleted   // "Entry cannot be deleted." with the default status
  {
    function Status(): int {
      if LatestDeleted? then 204 else 200
    }
  }

  /** What PUT /entry/<id> answers. */
  datatype UpdateOutcome =
    | EntryUpdated  // 204 "Entry updated"
    | NoSuchEntry   // no entry has that id: uncaught IndexError
  {
    function Status(): int {
      if EntryUpdated? then 204 else 500
    }
  }

  /** What DELETE /deleteuser/<username> answers. */
  datatype DeleteUserOutcome =
    | AccountDeleted  // 204 "User and entries deleted"
    | NotYourAccount  // 401 "You do not have the authorization for this!"
    | NoSuchUser      // 404 "User does not exist"
  {
    function Status(): int {
      match this
      case AccountDeleted => 204
      case NotYourAccount => 401
      case NoSuchUser => 404
    }
  }

  /** Ids are strictly increasing along a history of handed-out ids. */
  ghost predicate StrictlyIncreasing(ids: seq<int>) {
    forall i, j :: 0 <= i < j < |ids| ==> ids[i] < ids[j]
  }

  class Store {
    /** The `user` collection, in natural order. */
    var users: seq<User>
    /** The `entries` collection, in natural order. */
    var entries: seq<DiaryEntry>
    /** The `counters` collection: counter name to `sequence_value`. */
    var counters: map<string, int>
    /** Every id each counter has handed out, oldest first. */
    ghost var issued: map<string, seq<int>>
    /** The password-hash pair. */
    const hasher: PasswordHasher

    /** The store's invariant: entry ids ascending in store order (so the
        unique `_id` index holds), unique user ids, usernames and emails, no
        stored user with a blank username or email, and every counter ahead of
        the ids it has handed out and of the stored ids. */
    ghost predicate Valid()
      reads this
    {
      && IdsAscending(entries)
      && DistinctUsers(users)
      && (forall u :: u in users ==> u.username != "" && u.email != "")
      && issued.Keys == counters.Keys
      && (forall name :: name in issued ==> StrictlyIncreasing(issued[name]))
      && (forall name, x :: name in issued && x in issued[name] ==> x < counters[name])
      && (EntryCounter in counters ==> forall e :: e in entries ==> e.id < counters[EntryCounter])
      && (UserCounter in counters ==> forall u :: u in users ==> u.id < counters[UserCounter])
    }

    /** An empty store whose counter documents hold the given values. */
    constructor (hasher: PasswordHasher, counters: map<string, int>)
      ensures Valid()
      ensures this.hasher == hasher && this.counters == counters
      ensures users == [] && entries == []
    {
      this.hasher := hasher;
      this.counters := counters;
      users, entries := [], [];
      issued := map name | name in counters :: [];
    }

    /** `find_one_and_update({"_id": name}, {"$inc": {"sequence_value": 1}})`
        followed by reading `sequence_value`: the document comes back as it was
        BEFORE the increment, so the id handed out is the old value.  A missing
        counter document comes back as None, and nothing changes. */
    method NextSequenceValue(name: string) returns (r: Option<int>)
      modifies this`counters, this`issued
      ensures name !in old(counters) ==> r == None && counters == old(counters) && issued == old(issued)
      ensures name in old(counters) ==> r == Some(old(counters)[name])
      ensures name in old(counters) ==> counters == old(counters)[name := old(counters)[name] + 1]
      ensures old(Valid()) && r.Some? ==> forall x :: x in old(issued)[name] ==> x < r.value
      ensures old(Valid()) && r.Some? ==> issued == old(issued)[name := old(issued)[name] + [r.value]]
      ensures old(Valid()) ==> Valid()
    {
      if name !in counters {
        return None;
      }
      var value := counters[name];
      counters := counters[name := value + 1];
      var history := if name in issued then issued[name] else [];
      issued := issued[name := history + [value]];
      r := Some(value);
      if old(Valid()) {
        forall i, j | 0 <= i < j < |history + [value]|
          ensures (history + [value])[i] < (history + [value])[j]
        {
          if j == |history| {
            assert history[i] in old(issued)[name];
          }
        }
      }
    }

    /** `Entry.getNextEntryId`. */
    method NextEntryId() returns (r: Option<int>)
      modifies this`counters, this`issued
      ensures EntryCounter !in old(counters) ==> r == None && counters == old(counters) && issued == old(issued)
      ensures EntryCounter in old(counters) ==> r == Some(old(counters)[EntryCounter])
      ensures EntryCounter in old(counters) ==>
                counters == old(counters)[EntryCounter := old(counters)[EntryCounter] + 1]
      ensures old(Valid()) && r.Some? ==> forall x :: x in old(issued)[EntryCounter] ==> x < r.value
      ensures old(Valid()) && r.Some? ==> issued == old(issued)[EntryCounter := old(issued)[EntryCounter] + [r.value]]
      ensures old(Valid()) ==> Valid()
    {
      r := NextSequenceValue(EntryCounter);
    }

    /** `Register.getNextUserId`. */
    method NextUserId() returns (r: Option<int>)
      modifies this`counters, this`issued
      ensures UserCounter !in old(counters) ==> r == None && counters == old(counters) && issued == old(issued)
      ensures UserCounter in old(counters) ==> r == Some(old(counters)[UserCounter])
      ensures UserCounter in old(counters) ==>
                counters == old(counters)[UserCounter := old(counters)[UserCounter] + 1]
      ensures old(Valid()) && r.Some? ==> forall x :: x in old(issued)[UserCounter] ==> x < r.value
      ensures old(Valid()) && r.Some? ==> issued == old(issued)[UserCounter := old(issued)[UserCounter] + [r.value]]
      ensures old(Valid()) ==> Valid()
    {
      r := NextSequenceValue(UserCounter);
    }

    /** POST /register.  A user id is taken from the counter first, whatever
        happens next; then the username is checked, then the email; then, only
        when username, email and password are all non-empty, the user is
        inserted with the hash of the password (never the password itself). */
    method Register(username: string, email: string, password: string, salt: string)
      returns (r: RegisterOutcome)
      modifies this`users, this`counters, this`issued
      ensures r == UserCounterMissing <==> UserCounter !in old(counters)
      ensures UserCounter !in old(counters) ==> counters == old(counters) && users == old(users) && issued == old(issued)
      ensures old(Valid()) && UserCounter in old(counters) ==>
                issued == old(issued)[UserCounter := old(issued)[UserCounter] + [old(counters)[UserCounter]]]
      ensures UserCounter in old(counters) ==>
                counters == old(counters)[UserCounter := old(counters)[UserCounter] + 1]
      ensures r == UsernameTaken <==>
                UserCounter in old(counters) && FindByUsername(old(users), username).Some?
      ensures r == EmailTaken <==>
                && UserCounter in old(counters)
                && FindByUsername(old(users), username).None?
                && FindByEmail(old(users), email).Some?
      ensures r == BlankField <==>
                && UserCounter in old(counters)
                && FindByUsername(old(users), username).None?
                && FindByEmail(old(users), email).None?
                && (username == "" || email == "" || password == "")
      ensures r == UserInsertFailed <==>
                && UserCounter in old(counters)
                && FindByUsername(old(users), username).None?
                && FindByEmail(old(users), email).None?
                && username != "" && email != "" && password != ""
                && HasUserId(old(users), old(counters)[UserCounter])
      ensures r == Registered ==>
                users == old(users) + [User(old(counters)[UserCounter], username, email, hasher.generate(password, salt))]
      ensures r != Registered ==> users == old(users)
      ensures old(Valid()) ==> Valid()
      ensures old(Valid()) ==> r != UserInsertFailed
    {
      var next := NextUserId();
      if next.None? {
        return UserCounterMissing;
      }
      var id := next.value;
      var user := User(id, username, email, hasher.generate(password, salt));
      if FindByUsername(users, username).Some? {
        return UsernameTaken;
      }
      if FindByEmail(users, email).Some? {
        return EmailTaken;
      }
      if username != "" && email != "" && password != "" {
        // the store's unique index on `_id` refuses a second document with the same id
        if HasUserId(users, id) {
          return UserInsertFailed;
        }
        if old(Valid()) {
          DistinctAfterAppend(users, user);
        }
        users := users + [user];
        return Registered;
      }
      return BlankField;
    }

    /** POST /login.  A token bound to the given username is issued exactly
        when a user of that name is found and the password checks against its
        stored hash; an unknown user and a wrong password get the same answer. */
    method Login(username: string, password: string) returns (r: LoginOutcome)
      ensures r.LoggedIn? <==> PasswordAccepted(FindByUsername(users, username), hasher, password)
      ensures r.LoggedIn? ==> r.token == Token(username)
      ensures !r.LoggedIn? ==> r == InvalidCredentials
    {
      var found := FindByUsername(users, username);
      if found.Some? && hasher.check(found.value.passwordHash, password) {
        r := LoggedIn(Token(username));
      } else {
        r := InvalidCredentials;
      }
    }

    /** POST /entry.  Takes an entry id from the counter and appends one entry
        with that id, the caller as owner, the given date and time, and the
        payload unchanged.  An id the store already holds is refused. */
    method CreateEntry(identity: string, date: string, time: string, body: Payload)
      returns (r: CreateOutcome)
      modifies this`entries, this`counters, this`issued
      ensures r == EntryCounterMissing <==> EntryCounter !in old(counters)
      ensures EntryCounter !in old(counters) ==> counters == old(counters) && entries == old(entries) && issued == old(issued)
      ensures old(Valid()) && EntryCounter in old(counters) ==>
                issued == old(issued)[EntryCounter := old(issued)[EntryCounter] + [old(counters)[EntryCounter]]]
      ensures EntryCounter in old(counters) ==>
                counters == old(counters)[EntryCounter := old(counters)[EntryCounter] + 1]
      ensures r == EntryAdded <==>
                EntryCounter in old(counters) && !HasEntryId(old(entries), old(counters)[EntryCounter])
      ensures r == EntryAdded ==>
                entries == old(entries) + [DiaryEntry(old(counters)[EntryCounter], identity, date, time, body)]
      ensures r != EntryAdded ==> entries == old(entries)
      ensures old(Valid()) ==> Valid()
      ensures old(Valid()) && EntryCounter in old(counters) ==> r == EntryAdded
    {
      var next := NextEntryId();
      if next.None? {
        return EntryCounterMissing;
      }
      var entry := DiaryEntry(next.value, identity, date, time, body);
      // the store's unique index on `_id` refuses a second document with the same id
      if HasEntryId(entries, entry.id) {
        return EntryInsertFailed;
      }
      if old(Valid()) {
        AscendingAfterAppend(entries, entry);
      }
      entries := entries + [entry];
      r := EntryAdded;
    }

    /** GET /entry.  A list of at most one entry: the caller's entry with the
        highest id, or nothing when the caller has no entries. */
    method GetLatest(identity: string) returns (response: seq<DiaryEntry>)
      ensures response == (match Latest(entries, identity) case Some(e) => [e] case None => [])
      ensures |response| <= 1
      ensures response == [] <==> forall e :: e in entries ==> e.postedBy != identity
      ensures response != [] ==> response[0] in entries && response[0].postedBy == identity
      ensures response != [] ==> forall e :: e in entries && e.postedBy == identity ==> e.id <= response[0].id
    {
      var best: Option<DiaryEntry> := None;
      for i := 0 to |entries|
        invariant best == Latest(entries[..i], identity)
      {
        assert entries[..i + 1][..i] == entries[..i];
        var e := entries[i];
        if e.postedBy == identity && (best.None? || best.value.id < e.id) {
          best := Some(e);
        }
      }
      assert entries[..|entries|] == entries;
      response := [];
      if best.Some? {
        response := response + [best.value];
      }
    }

    /** DELETE /entry.  Finds the caller's latest entry as GET /entry does and
        deletes the first entry carrying its id; when the caller has none, the
        lookup fails and nothing changes. */
    method DeleteLatest(identity: string) returns (r: DeleteLatestOutcome)
      modifies this`entries
      ensures r == NothingDeleted <==> forall e :: e in old(entries) ==> e.postedBy != identity
      ensures r == NothingDeleted ==> entries == old(entries)
      ensures r == LatestDeleted ==>
                entries == RemoveAt(old(entries), EntryIndex(old(entries), Latest(old(entries), identity).value.id))
      ensures old(Valid()) ==> Valid()
      ensures old(Valid()) && r == LatestDeleted ==>
                && multiset(entries) == multiset(old(entries)) - multiset{Latest(old(entries), identity).value}
                && Latest(old(entries), identity).value !in entries
      ensures old(Valid()) ==> forall w :: w != identity ==> OwnedBy(entries, w) == OwnedBy(old(entries), w)
    {
      var response := GetLatest(identity);
      if |response| == 0 {
        // `response[0]` raises IndexError, caught by the handler
        return NothingDeleted;
      }
      var entryId := response[0].id;
      if old(Valid()) {
        AscendingIdsAreUnique(entries);
        DeleteLatestRemovesExactlyIt(entries, identity);
        AscendingAfterRemoveAt(entries, EntryIndex(entries, entryId));
      }
      entries := RemoveAt(entries, EntryIndex(entries, entryId));
      r := LatestDeleted;
    }

    /** PUT /entry/<id>.  The first entry with that id is replaced by a record
        that keeps its id, date and time, names the caller as owner (whoever
        owned it before) and takes every other field from the payload.  When
        no entry has that id the handler fails before writing anything. */
    method ReplaceEntry(id: int, identity: string, body: Payload) returns (r: UpdateOutcome)
      modifies this`entries
      ensures r == NoSuchEntry <==> !HasEntryId(old(entries), id)
      ensures r == NoSuchEntry ==> entries == old(entries)
      ensures r == EntryUpdated ==>
                var k := EntryIndex(old(entries), id);
                && k < |old(entries)|
                && entries == old(entries)[k := Rewritten(old(entries)[k], identity, body)]
      ensures r == EntryUpdated ==>
                var prior := old(entries)[EntryIndex(old(entries), id)];
                && Rewritten(prior, identity, body) in OwnedBy(entries, identity)
                && forall w :: w != identity && w != prior.postedBy ==> OwnedBy(entries, w) == OwnedBy(old(entries), w)
      ensures old(Valid()) ==> Valid()
    {
      var k := EntryIndex(entries, id);
      if k == |entries| {
        // `pre_updateEntry[0]` raises IndexError outside the handler's `try`
        return NoSuchEntry;
      }
      var prior := entries[k];
      ReplaceMovesOwnership(entries, k, identity, body);
      entries := entries[k := Rewritten(prior, identity, body)];
      r := EntryUpdated;
    }

    /** GET /entrylist.  Exactly the caller's entries, in store order. */
    method ListEntries(identity: string) returns (response: seq<DiaryEntry>)
      ensures response == OwnedBy(entries, identity)
      ensures forall e :: e in response <==> e in entries && e.postedBy == identity
    {
      response := [];
      var i := 0;
      while i < |entries|
        invariant 0 <= i <= |entries|
        invariant response == OwnedBy(entries[..i], identity)
      {
        assert entries[..i + 1][..i] == entries[..i];
        if entries[i].postedBy == identity {
          response := response + [entries[i]];
        }
        i := i + 1;
      }
      assert entries[..|entries|] == entries;
    }

    /** DELETE /deleteuser/<username>.  404 when no such user, 401 when the
        caller is someone else; otherwise the first user of that name is
        deleted and so is every entry it posted. */
    method DeleteUser(caller: string, username: string) returns (r: DeleteUserOutcome)
      modifies this`users, this`entries
      ensures r == NoSuchUser <==> FindByUsername(old(users), username).None?
      ensures r == NotYourAccount <==> FindByUsername(old(users), username).Some? && caller != username
      ensures r != AccountDeleted ==> users == old(users) && entries == old(entries)
      ensures r == AccountDeleted ==>
                && users == RemoveAt(old(users), UsernameIndex(old(users), username))
                && entries == WithoutOwner(old(entries), username)
      ensures old(Valid()) ==> Valid()
      ensures r == AccountDeleted ==>
                && OwnedBy(entries, username) == []
                && (forall w :: w != username ==> OwnedBy(entries, w) == OwnedBy(old(entries), w))
      ensures old(Valid()) && r == AccountDeleted ==>
                && FindByUsername(users, username).None?
                && (forall u :: u in old(users) && u.username != username ==> u in users)
    {
      if FindByUsername(users, username).None? {
        return NoSuchUser;
      }
      if caller != username {
        return NotYourAccount;
      }
      if old(Valid()) {
        DistinctAfterRemoveAt(users, UsernameIndex(users, username));
        AscendingAfterWithoutOwner(entries, username);
        RemoveAccountErasesUser(users, username);
      }
      CascadeLeavesNothing(entries, username);
      forall w | w != username ensures OwnedBy(WithoutOwner(entries, username), w) == OwnedBy(entries, w) {
        CascadeKeepsOthers(entries, username, w);
      }
      users := RemoveAt(users, UsernameIndex(users, username));
      entries := WithoutOwner(entries, username);
      r := AccountDeleted;
    }
  }
}
