/** A walk through the handlers, proved from their contracts alone: register,
    a rejected second registration, failed and successful logins, an entry
    and its read-back, a refused and an accepted account deletion. */
module DiaryScenario {
  import opened DiaryRecords
  import opened DiaryStore

  /** A toy hasher: the hash is the password behind a marker, the salt ignored. */
  function ToyHasher(): PasswordHasher {
    PasswordHasher((pw: string, salt: string) => "#" + pw, (h: string, pw: string) => h == "#" + pw)
  }

  method RegistrationScenario() {
    var store := new Store(ToyHasher(), map[UserCounter := 1, EntryCounter := 1]);

    var reg := store.Register("alice", "a@x.com", "pw1", "salt");
    assert reg == Registered && reg.Status() == 201;
    assert store.users == [User(1, "alice", "a@x.com", "#" + "pw1")];

    // the second attempt is refused, but still uses up user id 2
    var again := store.Register("alice", "b@x.com", "pw2", "salt");
    assert store.users[0] in store.users;
    assert again == UsernameTaken && again.Status() == 400;
    assert store.counters[UserCounter] == 3;
  }

  method LoginScenario() {
    var store := new Store(ToyHasher(), map[UserCounter := 1, EntryCounter := 1]);
    var reg := store.Register("alice", "a@x.com", "pw1", "salt");
    assert store.users == [User(1, "alice", "a@x.com", "#" + "pw1")];

    assert FindByUsername(store.users, "alice") == Some(store.users[0]);
    var wrong := store.Login("alice", "wrong");
    assert wrong == InvalidCredentials && wrong.Status() == 401;
    var ok := store.Login("alice", "pw1");
    assert ok == LoggedIn(Token("alice")) && ok.Status() == 200;
  }

  method EntryScenario(date: string, time: string) {
    var store := new Store(ToyHasher(), map[UserCounter := 1, EntryCounter := 1]);

    var body := Payload(5, 8, 1, [], [], "walk", "");
    var created := store.CreateEntry("alice", date, time, body);
    assert created == EntryAdded && created.Status() == 201;
    assert store.entries == [DiaryEntry(1, "alice", date, time, body)];

    var latest := store.GetLatest("alice");
    assert store.entries[0] in store.entries;
    assert latest == [DiaryEntry(1, "alice", date, time, body)];
    assert latest[0].body.mood == 5;
  }

  method RefusedDeletionScenario() {
    var store := new Store(ToyHasher(), map[UserCounter := 1, EntryCounter := 1]);
    var reg := store.Register("alice", "a@x.com", "pw1", "salt");
    assert reg == Registered;
    assert store.users[0].username == "alice";

    // "bob" is not registered, so the existence check answers before the identity check
    var notFound := store.DeleteUser("alice", "bob");
    assert notFound == NoSuchUser && notFound.Status() == 404;

    var forbidden := store.DeleteUser("bob", "alice");
    assert forbidden == NotYourAccount && forbidden.Status() == 401;
  }

  /** Alice registers, writes one entry and deletes her own account. */
  method DeletionScenario(date: string, time: string) {
    var store := new Store(ToyHasher(), map[UserCounter := 1, EntryCounter := 1]);
    var reg := store.Register("alice", "a@x.com", "pw1", "salt");
    assert reg == Registered;
    assert store.users[0].username == "alice";
    var created := store.CreateEntry("alice", date, time, Payload(5, 8, 1, [], [], "walk", ""));
    assert created == EntryAdded;

    var deleted := store.DeleteUser("alice", "alice");
    assert deleted == AccountDeleted && deleted.Status() == 204;
    var listed := store.ListEntries("alice");
    assert listed == [];
  }
}
