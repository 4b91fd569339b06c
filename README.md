# Mood-diary back end, modelled in Dafny

This project models the core of a mood-diary REST service. Users register and log in to get a bearer token. With that token they create, read, replace and delete dated diary entries: mood, sleep, irritability, medication, diet, exercise and notes. Every entry is scoped to the identity in the caller's token. Deleting an account also deletes its entries.

The service keeps its state in a document store. The model replaces that store with one `Store` object holding:

- `users`: the `user` collection, as a sequence in the store's natural order;
- `entries`: the `entries` collection, in the same way;
- `counters`: the counter documents `userid` and `entryid`, as a map from name to `sequence_value`;
- `hasher`: a pair of uninterpreted password functions, `generate(password, salt)` and `check(hash, password)`.

Each request handler is a method of `Store`. The caller's identity, the token's subject, is a string parameter. So are the date and time stamped on a new entry, and the hash salt. A handler's answer is a small datatype per handler. Its `Status()` gives the HTTP status the handler returns.

Files:

- `records.dfy` (module `DiaryRecords`) holds the documents as datatypes. It also holds the pure queries the handlers run, written as functions: the first match of a filter, the owner filter, the latest entry, and deletion by position. The lemmas about these queries are there too.
- `store.dfy` (module `DiaryStore`) holds the `Store` class and its invariant `Valid()`. The invariant says that entry `_id`s increase in store order, so they are unique, and that user `_id`s, usernames and emails are unique. It says that no stored user has a blank username or email. It says that each counter is ahead of every id it has handed out and of every stored id. A ghost history `issued` records, per counter, every id handed out; `Valid()` keeps each history strictly increasing. The counter methods, `Register` and `CreateEntry` each state how the history grows. The handlers do not require `Valid()`. Each one states what it does in every state, and that it keeps `Valid()` when it held before.
- `scenario.dfy` (module `DiaryScenario`) holds short client walks proved from the handlers' contracts alone. Alice registers. A second "alice" is refused. A wrong password and the right one are tried. An entry is written and read back. A deletion by the wrong party is refused. Alice writes an entry and deletes her own account, which leaves her entry list empty.

Behaviour modelled as the code has it:

- The counters hand out the value held before the increment. `find_one_and_update` returns the document as it was before the update, so the first id is whatever the counter document held. A missing counter document makes the handler fail with nothing changed.
- Registration takes a user id before any check, so a refused registration still uses one up. The username is checked before the email. When the username, email or password is empty, the handler returns nothing and inserts nothing. The framework then answers with its default status, 200.
- Inserting a document whose `_id` is already stored is refused, as the store's unique `_id` index does. The handlers catch this: entries answer 500, users answer 404. `Valid()` proves it never happens while the counters are ahead of the stored ids.
- Replace-by-id on an id with no entry fails when it reads the old entry, before anything is written. On an existing id it rewrites the owner to the caller, whoever owned the entry before.
- Delete-latest with no entries of the caller fails inside the handler's `try`. It answers with a message and the default status, and the store is unchanged.
- Account deletion checks that the user exists before it compares identities. So "alice" deleting the unregistered "bob" gets 404, not 401.

## Model

| member | source | states |
|---|---|---|
| DiaryRecords.FindByUsername | app/app.py:200-208 | the result is None exactly when no user has that username; otherwise it is a user with that username, and no earlier user in store order has it |
| DiaryRecords.FindByEmail | app/app.py:210-218 | the result is None exactly when no user has that email; otherwise it is a user with that email, and no earlier user in store order has it |
| DiaryRecords.LoginGrantedIff | app/app.py:262-265 | with unique usernames, the login check passes exactly when some stored user has the given username and the password checks against that user's hash |
| DiaryRecords.RemoveAccountErasesUser | app/app.py:288-289 | with distinct users, deleting the first user of a name leaves no user of that name, keeps every other user, and keeps the users distinct |
| DiaryRecords.OwnedBy | app/app.py:181 | an entry is in the result exactly when it is stored and posted by the given identity |
| DiaryRecords.OwnedByAppend | app/app.py:181-184 | the owner filter distributes over concatenation, so the listed entries keep store order |
| DiaryRecords.WithoutOwner | app/app.py:290-291 | an entry survives exactly when it is stored and not posted by the deleted user |
| DiaryRecords.Latest | app/app.py:112 | None exactly when the identity has no entries; otherwise an entry of that identity whose id bounds the ids of all its entries |
| DiaryRecords.LatestIsTheMaximum | app/app.py:112 | with unique ids, any entry of the identity whose id bounds all of that identity's ids is the latest entry, so the latest entry is well defined |
| DiaryRecords.DeleteLatestRemovesExactlyIt | app/app.py:123-128 | with unique ids, deleting by the latest entry's id removes that entry at its position and nothing else: one copy fewer in the collection, none left, and every other owner's entries unchanged and in order |
| DiaryRecords.CascadeLeavesNothing | app/app.py:290-291 | after the cascade, the deleted user owns no entries |
| DiaryRecords.CascadeKeepsOthers | app/app.py:290-291 | after the cascade, every other owner's entries are unchanged and in the same order |
| DiaryRecords.Rewritten | app/app.py:150-164 | the replacement record keeps the stored entry's id, date and time, names the caller as owner and takes every other field from the payload |
| DiaryRecords.ReplaceMovesOwnership | app/app.py:153-166 | replacing an entry puts the rewritten record in the caller's entries and leaves the entries of every owner other than the caller and the previous owner unchanged |
| DiaryRecords.LatestIsLastOwned | app/app.py:110-112 | with ids ascending in store order, the entry with the highest id is the caller's last entry in store order, the last inserted one |
| DiaryRecords.AscendingAfterAppend | app/app.py:83-99 | inserting an entry whose id is above every stored id keeps the ids ascending |
| DiaryRecords.AscendingAfterRemoveAt | app/app.py:128 | deleting one entry keeps the ids ascending |
| DiaryRecords.AscendingAfterWithoutOwner | app/app.py:291 | the cascade keeps the ids ascending |
| DiaryRecords.DistinctAfterAppend | app/app.py:239-247 | inserting a user whose id, username and email are all new keeps the users distinct |
| DiaryStore.Store.constructor | app/app.py:30-33 | an empty store with the given counter documents satisfies the invariant |
| DiaryStore.Store.NextSequenceValue | app/app.py:67-71 | returns the counter's value before the increment and raises the stored counter by exactly one; a missing counter gives None and changes nothing; the id handed out exceeds every id handed out before, and the invariant is kept |
| DiaryStore.Store.NextEntryId | app/app.py:66-71 | the same, for the `entryid` counter, including the id appended to its history |
| DiaryStore.Store.NextUserId | app/app.py:193-198 | the same, for the `userid` counter, including the id appended to its history |
| DiaryStore.Store.Register | app/app.py:226-250 | consumes one user id whenever the counter exists and appends it to the `userid` history; answers username-taken first, then email-taken; answers blank-field when any of username, email or password is empty; otherwise appends exactly one user holding the hash of the password; nothing is inserted on any other outcome; the id clash never happens under the invariant, and the invariant is kept |
| DiaryStore.Store.Login | app/app.py:259-272 | a token bound to the given username is issued exactly when a user of that name is found and the password checks against its hash; an unknown user and a wrong password get the same answer |
| DiaryStore.Store.CreateEntry | app/app.py:81-102 | consumes one entry id and appends it to the `entryid` history; on success appends exactly one entry with that id, the caller as owner, the given date and time and the payload unchanged, and leaves the existing entries untouched; under the invariant it always succeeds when the counter exists |
| DiaryStore.Store.GetLatest | app/app.py:110-116 | returns at most one entry; empty exactly when the caller has no entries; otherwise the caller's entry with the highest id; changes nothing |
| DiaryStore.Store.DeleteLatest | app/app.py:120-131 | with no entries of the caller it answers the failure message and changes nothing; otherwise it deletes the first entry carrying the id of the caller's latest entry; under the invariant that is exactly the caller's latest entry, and other owners' entries are unchanged |
| DiaryStore.Store.ReplaceEntry | app/app.py:145-169 | fails with the store unchanged exactly when no entry has the id; otherwise replaces the first entry with that id by the rewritten record, whoever owned it, and changes no other position |
| DiaryStore.Store.ListEntries | app/app.py:179-188 | returns exactly the caller's entries in store order; changes nothing |
| DiaryStore.Store.DeleteUser | app/app.py:285-296 | 404 and no change exactly when the username is unknown; 401 and no change exactly when it exists and the caller is someone else; otherwise deletes the first user of that name and every entry it posted, keeping other owners' entries; under the invariant no user of that name is left and every other user is kept |

## Left out

- Flask and flask_restplus wiring are not modelled. This covers the `api.model` declarations, the `authorizations` dict, route registration and the `/` liveness route. They are transport and documentation only.
- The `/protected` identity probe is not modelled. It only echoes the caller's identity.
- Token issuing and checking are not modelled. The identity is a parameter, and a token is an abstract value holding its subject. A request with a bad token is rejected before any handler runs.
- Password hashing is uninterpreted. An exception raised by the check is folded into a failed check, and both answer 401.
- The document-store driver is not modelled: cursors, `sort`, `limit`, and connection or write failures. The only insert failure modelled is a duplicate `_id`. So the 500 answers of replace (app/app.py:168-169) and list (app/app.py:187-188) cannot happen in the model.
- The clock is not modelled. The date and time strings are parameters.
- Request validation is not modelled. Payloads are complete, typed records, so a missing JSON key and a non-string username do not arise. Emptiness is tested on strings only.
- Concurrency is not modelled. This covers the check-then-insert race in registration and the atomicity of the counter. The model is sequential.
- Counter values are unbounded integers. The store's integer width is not modelled.
- DiaryStore.Store.GetLatest: when two entries of the caller share the highest id, it returns the first in store order, where the store leaves the order open. Under the invariant this cannot occur: ids are unique and ascending, so the answer is the caller's last entry in store order.
- app/config.py is not part of this model. It reads configuration from the environment or the command line and exits when a setting is missing.
- The unused plotting import is not part of this model.
