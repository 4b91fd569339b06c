/** The documents of the mood-diary back end and the queries the handlers run
    over them.  A collection is a sequence in the store's natural order; the
    single-document operations of the store (`find_one`, `delete_one`,
    `replace_one`) act on the first document that matches their filter. */
module DiaryRecords {

  datatype Option<+T> = None | Some(value: T)

  /** One item of an entry's `medication` list. */
  datatype Medication = Medication(name: string, dose: string)

  /** One item of an entry's `diet` list. */
  datatype Food = Food(food: string, amount: string)

  /** The fields of an entry that the client supplies: the JSON body of
      POST /entry and PUT /entry/<id> (`iritability` in the wire format). */
  datatype Payload = Payload(
    mood: int,
    sleep: int,
    irritability: int,
    medication: seq<Medication>,
    diet: seq<Food>,
    exercise: string,
    notes: string)

  /** A document of the `entries` collection: `_id`, `_postedBy`, the
      server-stamped `date` and `time`, and the client's fields. */
  datatype DiaryEntry = DiaryEntry(id: int, postedBy: string, date: string, time: string, body: Payload)

  /** A document of the `user` collection; `passwordHash` is what the hasher made of the password. */
  datatype User = User(id: int, username: string, email: string, passwordHash: string)

  /** An access token.  Its one claim is the subject, the username it was issued for. */
  datatype Token = Token(subject: string)

  /** The salted password-hash pair, left uninterpreted: `generate(password, salt)`
      gives the stored hash and `check(hash, password)` says whether a password
      matches it.  No relation between the two is assumed. */
  datatype PasswordHasher = PasswordHasher(
    generate: (string, string) -> string,
    check: (string, string) -> bool)

  // ---------------------------------------------------------------------
  // Positional helpers

  /** The position of the first element satisfying `p`, or `|s|` when none does. */
  function FirstIndex<T>(s: seq<T>, p: T -> bool): (k: nat)
    ensures k <= |s|
    ensures k < |s| ==> p(s[k])
    ensures forall j :: 0 <= j < k ==> !p(s[j])
  {
    if s == [] then 0
    else if p(s[0]) then 0
    else 1 + FirstIndex(s[1..], p)
  }

  /** `s` without its element at `k` (unchanged when `k` is past the end):
      what `delete_one` leaves after matching position `k`. */
  function RemoveAt<T>(s: seq<T>, k: nat): (r: seq<T>)
    ensures k >= |s| ==> r == s
    ensures k < |s| ==> |r| == |s| - 1
    ensures k < |s| ==> forall i :: 0 <= i < k ==> r[i] == s[i]
    ensures k < |s| ==> forall i :: k <= i < |r| ==> r[i] == s[i + 1]
  {
    if k < |s| then s[..k] + s[k + 1..] else s
  }

  /** Removing position `k` takes exactly one copy of `s[k]` out of the collection. */
  lemma RemoveAtMultiset<T>(s: seq<T>, k: nat)
    requires k < |s|
    ensures multiset(RemoveAt(s, k)) == multiset(s) - multiset{s[k]}
  {
    assert s == s[..k] + [s[k]] + s[k + 1..];
  }

  // ---------------------------------------------------------------------
  // The `user` collection

  /** Position of the first user named `name` (the one `find_one` and `delete_one` match). */
  function UsernameIndex(users: seq<User>, name: string): (k: nat)
    ensures k <= |users|
    ensures k < |users| ==> users[k].username == name
    ensures forall j :: 0 <= j < k ==> users[j].username != name
  {
    FirstIndex(users, (u: User) => u.username == name)
  }

  /** Position of the first user with address `email`. */
  function EmailIndex(users: seq<User>, email: string): (k: nat)
    ensures k <= |users|
    ensures k < |users| ==> users[k].email == email
    ensures forall j :: 0 <= j < k ==> users[j].email != email
  {
    FirstIndex(users, (u: User) => u.email == email)
  }

  /** `Register.find_by_username`: the first user named `name`, if any. */
  function FindByUsername(users: seq<User>, name: string): (r: Option<User>)
    ensures r.None? <==> forall u :: u in users ==> u.username != name
    ensures r.Some? ==> r.value.username == name
    ensures r.Some? ==> exists k :: 0 <= k < |users| && users[k] == r.value
                                    && forall j :: 0 <= j < k ==> users[j].username != name
  {
    var k := UsernameIndex(users, name);
    if k < |users| then Some(users[k]) else None
  }

  /** `Register.find_by_email`: the first user with address `email`, if any. */
  function FindByEmail(users: seq<User>, email: string): (r: Option<User>)
    ensures r.None? <==> forall u :: u in users ==> u.email != email
    ensures r.Some? ==> r.value.email == email
    ensures r.Some? ==> exists k :: 0 <= k < |users| && users[k] == r.value
                                    && forall j :: 0 <= j < k ==> users[j].email != email
  {
    var k := EmailIndex(users, email);
    if k < |users| then Some(users[k]) else None
  }

  /** Whether some stored user already has `_id` equal to `id`. */
  predicate HasUserId(users: seq<User>, id: int) {
    exists u :: u in users && u.id == id
  }

  /** The login decision: a user was found and the password checks against its hash. */
  predicate PasswordAccepted(found: Option<User>, hasher: PasswordHasher, password: string) {
    found.Some? && hasher.check(found.value.passwordHash, password)
  }

  /** What the `user` collection guarantees after the handlers' checks:
      distinct `_id`s (the store's own index), distinct usernames and distinct emails. */
  ghost predicate DistinctUsers(users: seq<User>) {
    forall i, j :: 0 <= i < j < |users| ==>
      users[i].id != users[j].id && users[i].username != users[j].username && users[i].email != users[j].email
  }

  /** Under distinct usernames, login succeeds exactly when some stored user
      has that username and the password checks against that user's hash. */
  lemma LoginGrantedIff(users: seq<User>, hasher: PasswordHasher, name: string, password: string)
    requires DistinctUsers(users)
    ensures PasswordAccepted(FindByUsername(users, name), hasher, password)
            <==> exists u :: u in users && u.username == name && hasher.check(u.passwordHash, password)
  {
  }

  /** Deleting the first user named `name` from a registry with distinct
      usernames leaves no user of that name and keeps every other user. */
  lemma RemoveAccountErasesUser(users: seq<User>, name: string)
    requires DistinctUsers(users)
    ensures var r := RemoveAt(users, UsernameIndex(users, name));
            && FindByUsername(r, name).None?
            && (forall u :: u in users && u.username != name ==> u in r)
            && DistinctUsers(r)
  {
  }

  lemma DistinctAfterRemoveAt(users: seq<User>, k: nat)
    requires DistinctUsers(users)
    ensures DistinctUsers(RemoveAt(users, k))
  {
  }

  lemma DistinctAfterAppend(users: seq<User>, u: User)
    requires DistinctUsers(users)
    requires !HasUserId(users, u.id)
    requires forall v :: v in users ==> v.username != u.username && v.email != u.email
    ensures DistinctUsers(users + [u])
  {
  }

  // ---------------------------------------------------------------------
  // The `entries` collection

  /** Position of the first entry whose `_id` is `id`. */
  function EntryIndex(es: seq<DiaryEntry>, id: int): (k: nat)
    ensures k <= |es|
    ensures k < |es| ==> es[k].id == id
    ensures forall j :: 0 <= j < k ==> es[j].id != id
  {
    FirstIndex(es, (e: DiaryEntry) => e.id == id)
  }

  /** Whether some stored entry has `_id` equal to `id`. */
  predicate HasEntryId(es: seq<DiaryEntry>, id: int) {
    exists e :: e in es && e.id == id
  }

  /** The entry ids are distinct: the store's unique index on `_id`. */
  ghost predicate UniqueEntryIds(es: seq<DiaryEntry>) {
    forall i, j :: 0 <= i < j < |es| ==> es[i].id != es[j].id
  }

  /** The entry ids increase in store order: every insert takes the counter's
      value, which is above every stored id, and no update changes an id. */
  ghost predicate IdsAscending(es: seq<DiaryEntry>) {
    forall i, j :: 0 <= i < j < |es| ==> es[i].id < es[j].id
  }

  /** The result of the filter `{"_postedBy": who}`, in store order. */
  function OwnedBy(es: seq<DiaryEntry>, who: string): (r: seq<DiaryEntry>)
    ensures forall e :: e in r <==> e in es && e.postedBy == who
    ensures |r| <= |es|
  {
    if es == [] then []
    else
      var n := |es| - 1;
      assert es == es[..n] + [es[n]];
      OwnedBy(es[..n], who) + (if es[n].postedBy == who then [es[n]] else [])
  }

  /** What `delete_many({"_postedBy": who})` leaves: every entry not owned by `who`, in store order. */
  function WithoutOwner(es: seq<DiaryEntry>, who: string): (r: seq<DiaryEntry>)
    ensures forall e :: e in r <==> e in es && e.postedBy != who
    ensures |r| <= |es|
  {
    if es == [] then []
    else
      var n := |es| - 1;
      assert es == es[..n] + [es[n]];
      WithoutOwner(es[..n], who) + (if es[n].postedBy != who then [es[n]] else [])
  }

  /** The entry `who` posted with the highest `_id` (the first of them in store
      order should two share it), or None when `who` has no entries: what the
      query `find({"_postedBy": who}).sort("_id", -1).limit(1)` yields. */
  function Latest(es: seq<DiaryEntry>, who: string): (r: Option<DiaryEntry>)
    ensures r.None? <==> forall e :: e in es ==> e.postedBy != who
    ensures r.Some? ==> r.value in es && r.value.postedBy == who
    ensures r.Some? ==> forall e :: e in es && e.postedBy == who ==> e.id <= r.value.id
  {
    if es == [] then None
    else
      var n := |es| - 1;
      assert es == es[..n] + [es[n]];
      var prev := Latest(es[..n], who);
      if es[n].postedBy == who && (prev.None? || prev.value.id < es[n].id) then Some(es[n]) else prev
  }

  /** The record PUT /entry/<id> writes over `prior`: the same `_id`, date and
      time, the caller as owner, every other field from the payload. */
  function Rewritten(prior: DiaryEntry, caller: string, body: Payload): (r: DiaryEntry)
    ensures r.id == prior.id && r.date == prior.date && r.time == prior.time
    ensures r.postedBy == caller && r.body == body
  {
    DiaryEntry(prior.id, caller, prior.date, prior.time, body)
  }

  /** The owner filter distributes over concatenation, so it keeps store order. */
  lemma {:induction false} OwnedByAppend(a: seq<DiaryEntry>, b: seq<DiaryEntry>, who: string)
    ensures OwnedBy(a + b, who) == OwnedBy(a, who) + OwnedBy(b, who)
    decreases |b|
  {
    if b == [] {
      assert a + b == a;
    } else {
      var n := |b| - 1;
      assert (a + b)[..|a + b| - 1] == a + b[..n];
      OwnedByAppend(a, b[..n], who);
    }
  }

  /** `OwnedBy` of a single entry. */
  lemma OwnedBySingle(e: DiaryEntry, who: string)
    ensures OwnedBy([e], who) == if e.postedBy == who then [e] else []
  {
  }

  /** With unique ids, the caller's entry with the highest id is the only
      candidate: any entry of `who` whose id bounds all of `who`'s ids is `Latest`. */
  lemma LatestIsTheMaximum(es: seq<DiaryEntry>, who: string, e: DiaryEntry)
    requires UniqueEntryIds(es)
    requires e in es && e.postedBy == who
    requires forall f :: f in es && f.postedBy == who ==> f.id <= e.id
    ensures Latest(es, who) == Some(e)
  {
  }

  /** With unique ids, the entry at position `j` is the first one carrying its `_id`. */
  lemma EntryIndexOfUnique(es: seq<DiaryEntry>, j: nat)
    requires UniqueEntryIds(es) && j < |es|
    ensures EntryIndex(es, es[j].id) == j
  {
  }

  /** Deleting the one entry at position `k` leaves no copy of it behind when ids are unique. */
  lemma RemoveAtDropsUnique(es: seq<DiaryEntry>, k: nat)
    requires UniqueEntryIds(es) && k < |es|
    ensures es[k] !in RemoveAt(es, k)
  {
  }

  /** Deleting an entry not owned by `w` does not change what `w` sees. */
  lemma OwnedByRemoveAt(es: seq<DiaryEntry>, k: nat, w: string)
    requires k < |es| && es[k].postedBy != w
    ensures OwnedBy(RemoveAt(es, k), w) == OwnedBy(es, w)
  {
    var front, x, back := es[..k], es[k], es[k + 1..];
    assert es == (front + [x]) + back;
    assert RemoveAt(es, k) == front + back;
    OwnedByAppend(front, back, w);
    OwnedByAppend(front + [x], back, w);
    OwnedByAppend(front, [x], w);
    OwnedBySingle(x, w);
    assert OwnedBy(front + [x], w) == OwnedBy(front, w);
  }

  /** With unique ids, the first entry carrying the `_id` of `who`'s latest
      entry is that entry itself, so deleting by that `_id` removes exactly it:
      the collection loses its one copy, and every other owner's entries are
      unchanged and in the same order. */
  lemma DeleteLatestRemovesExactlyIt(es: seq<DiaryEntry>, who: string)
    requires UniqueEntryIds(es)
    requires Latest(es, who).Some?
    ensures var l := Latest(es, who).value;
            var k := EntryIndex(es, l.id);
            var r := RemoveAt(es, k);
            && k < |es| && es[k] == l
            && r == es[..k] + es[k + 1..]
            && multiset(r) == multiset(es) - multiset{l}
            && l !in r
            && (forall w :: w != who ==> OwnedBy(r, w) == OwnedBy(es, w))
  {
    var l := Latest(es, who).value;
    var j :| 0 <= j < |es| && es[j] == l;
    EntryIndexOfUnique(es, j);
    RemoveAtDropsUnique(es, j);
    RemoveAtMultiset(es, j);
    forall w | w != who ensures OwnedBy(RemoveAt(es, j), w) == OwnedBy(es, w) {
      OwnedByRemoveAt(es, j, w);
    }
  }

  /** Cascading an account deletion leaves none of `who`'s entries. */
  lemma {:induction false} CascadeLeavesNothing(es: seq<DiaryEntry>, who: string)
    ensures OwnedBy(WithoutOwner(es, who), who) == []
    decreases |es|
  {
    if es != [] {
      var n := |es| - 1;
      var last := es[n];
      CascadeLeavesNothing(es[..n], who);
      var keep := if last.postedBy != who then [last] else [];
      assert WithoutOwner(es, who) == WithoutOwner(es[..n], who) + keep;
      OwnedByAppend(WithoutOwner(es[..n], who), keep, who);
      OwnedBySingle(last, who);
      assert OwnedBy([], who) == [];
    }
  }

  /** Cascading an account deletion keeps every other owner's entries, in the same order. */
  lemma {:induction false} CascadeKeepsOthers(es: seq<DiaryEntry>, who: string, w: string)
    requires w != who
    ensures OwnedBy(WithoutOwner(es, who), w) == OwnedBy(es, w)
    decreases |es|
  {
    if es != [] {
      var n := |es| - 1;
      var last := es[n];
      CascadeKeepsOthers(es[..n], who, w);
      var keep := if last.postedBy != who then [last] else [];
      assert WithoutOwner(es, who) == WithoutOwner(es[..n], who) + keep;
      OwnedByAppend(WithoutOwner(es[..n], who), keep, w);
      OwnedBySingle(last, w);
      assert OwnedBy([], w) == [];
    }
  }

  /** PUT /entry/<id> on the entry at position `k` moves it to the caller:
      the caller's list gains the rewritten record, and owners other than the
      caller and the previous owner see no change. */
  lemma ReplaceMovesOwnership(es: seq<DiaryEntry>, k: nat, caller: string, body: Payload)
    requires k < |es|
    ensures var r := es[k := Rewritten(es[k], caller, body)];
            && Rewritten(es[k], caller, body) in OwnedBy(r, caller)
            && forall w :: w != caller && w != es[k].postedBy ==> OwnedBy(r, w) == OwnedBy(es, w)
  {
    var front, x, back := es[..k], es[k], es[k + 1..];
    var y := Rewritten(x, caller, body);
    assert es == (front + [x]) + back;
    assert es[k := y] == (front + [y]) + back;
    assert y in es[k := y];
    forall w | w != caller && w != x.postedBy
      ensures OwnedBy(es[k := y], w) == OwnedBy(es, w)
    {
      OwnedByAppend(front + [x], back, w);
      OwnedByAppend(front + [y], back, w);
      OwnedByAppend(front, [x], w);
      OwnedByAppend(front, [y], w);
      OwnedBySingle(x, w);
      OwnedBySingle(y, w);
    }
  }

  // ---------------------------------------------------------------------
  // Keeping the ids in ascending store order

  /** Ascending ids are in particular distinct: the unique `_id` index holds. */
  lemma AscendingIdsAreUnique(es: seq<DiaryEntry>)
    requires IdsAscending(es)
    ensures UniqueEntryIds(es)
  {
  }

  /** Inserting an entry whose id is above every stored id keeps the order. */
  lemma AscendingAfterAppend(es: seq<DiaryEntry>, e: DiaryEntry)
    requires IdsAscending(es)
    requires forall x :: x in es ==> x.id < e.id
    ensures IdsAscending(es + [e])
  {
  }

  /** `delete_one` keeps the order of what remains. */
  lemma AscendingAfterRemoveAt(es: seq<DiaryEntry>, k: nat)
    requires IdsAscending(es)
    ensures IdsAscending(RemoveAt(es, k))
  {
  }

  /** `delete_many` keeps the order of what remains. */
  lemma {:induction false} AscendingAfterWithoutOwner(es: seq<DiaryEntry>, who: string)
    requires IdsAscending(es)
    ensures IdsAscending(WithoutOwner(es, who))
    decreases |es|
  {
    if es != [] {
      var n := |es| - 1;
      var prefix := es[..n];
      assert IdsAscending(prefix);
      AscendingAfterWithoutOwner(prefix, who);
      assert es == prefix + [es[n]];
      if es[n].postedBy != who {
        assert WithoutOwner(es, who) == WithoutOwner(prefix, who) + [es[n]];
        forall e | e in WithoutOwner(prefix, who) ensures e.id < es[n].id {
          var i :| 0 <= i < n && prefix[i] == e;
          assert es[i] == e;
        }
        AscendingAfterAppend(WithoutOwner(prefix, who), es[n]);
      } else {
        assert WithoutOwner(es, who) == WithoutOwner(prefix, who);
      }
    }
  }

  /** With ids ascending in store order, the latest entry of `who` is the last
      of `who`'s entries in store order. */
  lemma {:induction false} LatestIsLastOwned(es: seq<DiaryEntry>, who: string)
    requires IdsAscending(es)
    ensures var owned := OwnedBy(es, who);
            Latest(es, who) == if owned == [] then None else Some(owned[|owned| - 1])
    decreases |es|
  {
    if es != [] {
      var n := |es| - 1;
      var prefix := es[..n];
      assert IdsAscending(prefix);
      LatestIsLastOwned(prefix, who);
      var prev := Latest(prefix, who);
      if es[n].postedBy == who {
        assert OwnedBy(es, who) == OwnedBy(prefix, who) + [es[n]];
        if prev.Some? {
          var i :| 0 <= i < n && prefix[i] == prev.value;
          assert es[i] == prev.value;
        }
      } else {
        assert OwnedBy(es, who) == OwnedBy(prefix, who);
      }
    }
  }
}
