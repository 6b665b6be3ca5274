# webgme MongoDB storage layer, modelled in Dafny

This project models the storage layer of webgme's node server
(`nodeserver/src/storage/mongo2.js`). It is a content-addressed object store
with named branch pointers, built on MongoDB collections. The backend driver
calls are inputs to the model, and the store's own rules are pure functions
and small methods:

- **Identifiers** (`identifiers.dfy`). These are the three identifier
  patterns: project `^[0-9a-zA-Z_]*$`, object hash `^#[0-9a-zA-Z_]*$` and
  branch `^\*[0-9a-zA-Z_]*$`. The module also has the reserved `system.`
  prefix check of `_validProjectName`. Finally it lists project names from
  the backend's collection names: each name's suffix after its first dot,
  kept if valid.
- **Registry** (`registry.dfy`). This is the database's project registry as
  a tagged entry `Absent | Opening(waiters) | Open(project, refcount)` in a
  map. `openProject` is split into two steps: `OpenProject`, which may start
  the single underlying open, and `ResolveOpen`, which delivers its outcome
  to every waiter. The module also covers `closeProject` and
  `deleteProject`.
- **ObjectStore** (`objectstore.dfy`). It holds `loadObject`,
  `insertObject` and `findHash`. `findHash` is a bounded scan (at most two
  matches) that resolves a hash prefix to the one stored id beginning with
  it.
- **Branches** (`branches.dfy`). This is the three-way compare-and-swap of
  `Branch._setHash` with an explicit `Changed`/`Conflict` outcome. It also
  has the branch listing of `getBranchNames` and the argument check of
  `setBranchHash`.
- **Connection** (`connection.dfy`). This covers the constructor's delay
  default and the status classification (closed / unreachable /
  connected). It has the report-on-change long poll of `_reportStatus`, the
  "first error wins" fold of `fsyncDatabase`, `closeDatabase` and
  `getProjectNames`.

Source `ASSERT`s are `requires` clauses. In the source, a failed assertion
throws at the caller. Error paths the source reports through its callbacks
are `Result`/`Option` values instead.

Branch documents are keyed by the branch name. The source's `Branch`
methods use the field `this._branch` as the document id
(mongo2.js:336, 351, 356, 361). No code ever sets that field. The
constructor stores the name in `this._name` (mongo2.js:329). So the model
follows the evident intent. `getBranchHash` is unfinished in the source, and
the file does not parse there (mongo2.js:312). `setBranchHash` has an empty
body (mongo2.js:315-321). Neither has behaviour to model beyond its argument
checks. `Branches.GetBranchHash` is therefore not a model of the
`getBranchHash` call. It is the value a branch reads as, which `_setHash`'s
filters compare against: the stored hash, or `""` when the branch is absent.
`Branches.SetBranchHash` is `_setHash`'s write under `_setHash`'s own
argument check.

The project registry is a plain JavaScript object (mongo2.js:29), so it
inherits names such as `constructor` and `__proto__` from
`Object.prototype`. Those names match the project pattern, but looking one
up yields the inherited value, and `openProject` then fails the assertion
that guards a fresh open (mongo2.js:157). `Registry.OpenableName` carries
that assertion as a precondition of the open operations.

Branches use one of two admission rules. The check in `setBranchHash`
refuses `""`. The check in `_setHash` allows `""` as "absent". The model
records the first as a finding and uses the second. A `deleteProject` on a
project with a live handle goes ahead: the registry entry stays behind,
orphaned. The source does not consult the registry there, and the model
proves this consequence.

## Model

| member | source | states |
|---|---|---|
| Identifiers.ValidProjectNameCharacterization | nodeserver/src/storage/mongo2.js:32-36 | a name is valid iff it does not start with "system." and every character is in [0-9A-Za-z_] |
| Identifiers.PatternExcludesSystemPrefix | nodeserver/src/storage/mongo2.js:10 | the project pattern alone already rules out the "system." prefix, so validity equals matching the pattern |
| Identifiers.PatternsAreDisjoint | nodeserver/src/storage/mongo2.js:10-12 | no string is two kinds of identifier: the sigils separate project names, hashes and branch names |
| Identifiers.Substr | nodeserver/src/storage/mongo2.js:35 | the 7-character cut is the name's first 7 characters, or the whole name when it is shorter |
| Identifiers.IndexOfDot | nodeserver/src/storage/mongo2.js:134 | -1 iff the name has no dot; otherwise the position of a dot with no dot before it |
| Identifiers.ProjectSuffixSplit | nodeserver/src/storage/mongo2.js:134-135 | the whole name when it has no dot; else the name is dot-free text, a dot, then the suffix |
| Identifiers.ListProjectNames | nodeserver/src/storage/mongo2.js:132-139 | the loop yields exactly the reference list of valid suffixes, in collection order |
| Identifiers.ValidSuffixesAreValid | nodeserver/src/storage/mongo2.js:135-137 | every listed name passes the project-name check, and no more names are listed than collections exist |
| Identifiers.ValidSuffixesMembership | nodeserver/src/storage/mongo2.js:133-139 | a name is listed iff it is valid and some collection name has it as suffix |
| Identifiers.ValidSuffixesInOrder | nodeserver/src/storage/mongo2.js:133-139 | the listed names come from strictly increasing positions of the collection list |
| Registry.InheritedNamesPassPattern | nodeserver/src/storage/mongo2.js:10 | every name inherited from `Object.prototype` matches the project pattern, so the pattern alone does not keep it out of `openProject` |
| Registry.OpenProject | nodeserver/src/storage/mongo2.js:145-161 | needs a pattern-matching name that is not inherited from `Object.prototype` (the assertion at line 157); Open(p,k) becomes Open(p,k+1) and the caller gets p; Opening(q) becomes Opening(q+[cb]); Absent becomes Opening([cb]) and exactly then one underlying open starts; other entries unchanged |
| Registry.NotifyAll | nodeserver/src/storage/mongo2.js:175-177 | every queued callback, in queue order, receives the same result |
| Registry.Resolve | nodeserver/src/storage/mongo2.js:162-178 | on failure the entry is deleted and every waiter gets the error; on success the entry is Open(p, base + waiters) and every waiter gets the same p |
| Registry.ResolveOpen | nodeserver/src/storage/mongo2.js:162-178 | as written: on success the refcount is 1 + number of waiters; on failure the entry is gone; every waiter is answered alike |
| Registry.ResolveOpenCorrected | nodeserver/src/storage/mongo2.js:172 | with one reference per caller, the refcount after a successful open equals the number of waiters |
| Registry.CloseProject | nodeserver/src/storage/mongo2.js:220-232 | needs refcount >= 1; decrements it by exactly one; the entry is removed iff it reaches 0; other entries unchanged |
| Registry.DeleteProject | nodeserver/src/storage/mongo2.js:182-187 | needs a connection and a name matching the project pattern; a successful drop removes only that collection; the registry is untouched |
| Registry.DeleteInheritedName | nodeserver/src/storage/mongo2.js:182-187 | `deleteProject` does not consult the registry, so every name inherited from `Object.prototype`, though refused by `openProject`, is dropped like any other |
| Registry.DeleteOrphansOpenHandle | nodeserver/src/storage/mongo2.js:182-187 | after deleting an open project, the next open still answers with the stale handle |
| Registry.OpenAll | nodeserver/src/storage/mongo2.js:145-161 | opens in a row touch only the named entry and keep the registry well formed |
| Registry.CoalescedOpens | nodeserver/src/storage/mongo2.js:154-158 | K opens of an absent project start exactly one underlying open (the first) and queue all K callers in order |
| Registry.CloseTimes | nodeserver/src/storage/mongo2.js:224-229 | k closes lower the refcount by k and remove the entry iff the refcount was exactly k |
| Registry.OpenCloseLeaksAsWritten | nodeserver/src/storage/mongo2.js:158-213 | as written, K coalesced callers each closing once leave Open(p, 1): the project is never removed |
| Registry.OpenCloseBalancedCorrected | nodeserver/src/storage/mongo2.js:220-232 | with one reference per caller, K closes remove the project and the next open starts afresh |
| Registry.FailedOpenAllowsRetry | nodeserver/src/storage/mongo2.js:166-168 | a failed open answers every waiter with the error and clears the entry, so a retry starts a fresh open |
| ObjectStore.LoadObject | nodeserver/src/storage/mongo2.js:234-241 | needs a valid hash; a transport failure is passed on; otherwise answers the stored object exactly when the hash is stored, "no document" otherwise |
| ObjectStore.InsertObject | nodeserver/src/storage/mongo2.js:243-248 | needs a valid hash id; fails iff the transport fails or the id is stored (a duplicate key when no transport failure); otherwise adds exactly that object and changes nothing else |
| ObjectStore.InsertedObjectIsImmutable | nodeserver/src/storage/mongo2.js:243-248 | once inserted, an id can never be inserted again, whatever the transport does, and keeps loading its first body |
| ObjectStore.FindHash | nodeserver/src/storage/mongo2.js:250-274 | an invalid prefix errors before any lookup; otherwise no match gives "not found", two or more "not unique", and success holds iff exactly one stored id has the prefix, which is then returned |
| ObjectStore.ScanPrefix | nodeserver/src/storage/mongo2.js:256-262 | the cursor limited to 2 returns pairwise distinct matching ids; fewer than 2 means all matches were returned, 2 means at least 2 exist |
| ObjectStore.FullHashResolvesToItself | nodeserver/src/storage/mongo2.js:256-270 | a stored full hash resolves uniquely iff no other stored id extends it |
| Branches.GetBranchHash | nodeserver/src/storage/mongo2.js:307-313 | a branch reads as its stored hash, and as "" exactly when it is absent |
| Branches.SetHash | nodeserver/src/storage/mongo2.js:344-369 | insert succeeds iff the branch is absent; remove and update succeed iff the stored hash equals old; a conflict leaves the table unchanged; no other branch changes |
| Branches.SetHashIsCompareAndSwap | nodeserver/src/storage/mongo2.js:349-368 | on a valid table the write happens iff the branch reads as the expected old hash, and the table stays valid |
| Branches.SuccessfulWritesChain | nodeserver/src/storage/mongo2.js:349-368 | two successive successful writes to a branch chain: the second expected what the first wrote |
| Branches.CreateTwiceAndRetryConflict | nodeserver/src/storage/mongo2.js:349-368 | a second create of a branch conflicts and keeps the first hash; an identical retry of a successful update conflicts |
| Branches.SetHashReportAsWritten | nodeserver/src/storage/mongo2.js:349-368 | as written the caller sees only driver errors: a transport failure is passed on; without one, no error for any remove or update, and a duplicate key only for an insert over an existing branch |
| Branches.SetHashReport | nodeserver/src/storage/mongo2.js:344-369 | a transport failure is passed on; without one, the caller is told of a conflict exactly when the write did not happen |
| Branches.LostUpdateNotReportedAsWritten | nodeserver/src/storage/mongo2.js:360-367 | an update whose expected hash is stale changes nothing, yet as written reports success |
| Branches.SetBranchHashCannotCreateOrDeleteAsWritten | nodeserver/src/storage/mongo2.js:315-318 | as written setBranchHash refuses "" as old or new, so it can neither create nor delete a branch |
| Branches.SetBranchHash | nodeserver/src/storage/mongo2.js:344-347 | with the admission of _setHash: keeps the table valid, writes iff the branch reads as old, then reads as new; a conflict leaves the table as it was; other branches are untouched |
| Branches.BranchLifecycle | nodeserver/src/storage/mongo2.js:349-368 | a branch can be created, moved and deleted through the corrected setBranchHash, ending in the starting table |
| Branches.BranchMap | nodeserver/src/storage/mongo2.js:299-302 | the map's keys are exactly the ids of the listed documents |
| Branches.BranchMapLastWins | nodeserver/src/storage/mongo2.js:300-302 | each id maps to the hash of the last document with that id |
| Branches.BranchMapOfEnumeration | nodeserver/src/storage/mongo2.js:291-302 | a listing that names every branch once rebuilds exactly the branch table |
| Branches.GetBranchNamesAsWritten | nodeserver/src/storage/mongo2.js:288-305 | as written a failed query is passed on, and a successful one is never answered |
| Branches.GetBranchNames | nodeserver/src/storage/mongo2.js:288-305 | the corrected listing passes on a failure and answers success with one entry per listed id |
| Branches.GetBranchNamesAnswers | nodeserver/src/storage/mongo2.js:299-303 | on a complete listing the corrected version answers the branch table itself, while as written there is no answer |
| Connection.NewDatabase | nodeserver/src/storage/mongo2.js:20-30 | a new database has no connection and an empty registry, and its delay is the configured one or 1000 when that is absent or 0 |
| Connection.StatusTextInjective | nodeserver/src/storage/mongo2.js:14-16 | the three status strings are distinct, so comparing strings compares statuses |
| Connection.ObserveStatus | nodeserver/src/storage/mongo2.js:100-114 | closed iff no connection, unreachable iff connected and the ping failed, connected otherwise |
| Connection.ReportStatus | nodeserver/src/storage/mongo2.js:116-122 | delivered immediately iff the status differs from the previous one, else the same status after the configured delay |
| Connection.GetDatabaseStatus | nodeserver/src/storage/mongo2.js:100-122 | reports the observed status, immediately iff it differs from the caller's previous status |
| Connection.MonitorWaitsUntilChange | nodeserver/src/storage/mongo2.js:100-122 | a monitor feeding back the last reported status is answered at once iff the status changed |
| Connection.FirstError | nodeserver/src/storage/mongo2.js:85 | there is no error iff no completion carries a transport or result error |
| Connection.FirstErrorSnoc | nodeserver/src/storage/mongo2.js:85 | folding one more completion into the held error gives the first error of the longer sequence |
| Connection.FsyncDatabase | nodeserver/src/storage/mongo2.js:72-98 | with n >= 1 connections, the callback is not called on the first n-1 completions and is called on the n-th, with the first error in completion order |
| Connection.CloseDatabase | nodeserver/src/storage/mongo2.js:56-70 | the database ends disconnected and the caller always gets success, even if the fsync failed; the registry is kept |
| Connection.CloseIsIdempotent | nodeserver/src/storage/mongo2.js:56-70 | closing a closed database changes nothing, and a closed database reports the closed status |
| Connection.GetProjectNames | nodeserver/src/storage/mongo2.js:124-143 | a listing failure is passed on; otherwise the answer is exactly the valid suffixes in collection order |

## Left out

- Driver effects: connection open/close, `collection`, `dropCollection`, `lastError`, `ping`, `collectionNames`, `find`, `insert`, `update` and `remove`. Their outcomes are parameters: a transport fault (for `loadObject`, `insertObject`, `findHash`, `deleteProject`, `getBranchNames`, `getProjectNames` and the branch writes), a collection handle, a listing, the completion order.
- `openDatabase`: its error path closes the connection through a `this` that is not the database (mongo2.js:45-48). The connection is a boolean in the model.
- Real timers and callback scheduling: the `setTimeout` delay is a returned `Delivery` value. Asynchrony is modelled as separate sequential steps, with no concurrency.
- `dumpObjects` only logs. `Branch._getHash` and `_notify` are unfinished, and the `Branch` constructor's callback list is never used.
- The `getBranchHash` call, with its `oldhash` argument: the body is missing, so what the call does is unknown. `Branches.GetBranchHash` is the branch's stored value, not this call.
- Branches.SetHash: a transport failure's effect on the table is not modelled. The write is computed as if the backend answered; the failure reaches the caller through the `fault` input of `SetHashReportAsWritten` and `SetHashReport`.
- Content-hash verification: the store checks hash syntax only and never recomputes hashes.
- Connection.FirstError: errors are modelled as present or absent. JavaScript treats an empty error message as no error, and the model does not.
- Identifiers.Substr: only the in-range start of JavaScript's `substr` is modelled. The source only ever calls it with start 0.
- The host, port and database-name defaults of the constructor: nothing in the store's logic depends on them.
- `closeProject` releases the collection handle, and `deleteProject` drops the collection without looking at the registry. The model's project handle is a value, so the released handle is not represented.

## Findings

| source | as written | input that shows it | evidently intended | confidence | as-written member | corrected member |
|---|---|---|---|---|---|---|
| nodeserver/src/storage/mongo2.js:158-213 | the fresh project gets refcount 1, then one more per queued callback, the first caller included | one `openProject`, its open succeeds, one `closeProject`: the refcount is still 1 and the project stays registered | one reference per caller, so K closes after K opens remove the project | high, not executed | Registry.OpenCloseLeaksAsWritten | Registry.OpenCloseBalancedCorrected |
| nodeserver/src/storage/mongo2.js:353-367 | the driver callback is passed through, so a remove or update that matched no document reports success | branch `*master` at `#a1`, `_setHash("#b2", "#c3")`: nothing changes and no error is reported | a zero-match conditional write is reported as a conflict | high, not executed | Branches.LostUpdateNotReportedAsWritten | Branches.SetHashReport |
| nodeserver/src/storage/mongo2.js:317-318 | `setBranchHash` asserts both hashes match the hash pattern, so `""` is refused | `setBranchHash("*b", "", "#h1")` fails its assertion, so no branch can ever be created | `""` stands for "absent" as in `_setHash` (mongo2.js:345-347) | medium, not executed | Branches.SetBranchHashCannotCreateOrDeleteAsWritten | Branches.BranchLifecycle |
| nodeserver/src/storage/mongo2.js:299-303 | on success the name-to-hash map is built and the callback is never called | any successful query, even an empty one | the callback receives the map | high, not executed | Branches.GetBranchNamesAsWritten | Branches.GetBranchNamesAnswers |
