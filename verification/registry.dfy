/** The database's project registry: each project name is absent, being
    opened (with the callers waiting for that one open), or open (with the
    shared handle and its reference count). Opening is asynchronous in the
    system; here it is two steps, `OpenProject` (which may start the one
    underlying open) and `ResolveOpen` (which delivers its outcome). */
module Registry {
  import opened Outcomes
  import opened Identifiers

  /** The identity of one caller's callback. */
  type Waiter = nat

  /** The backend's collection handle, opaque to the store. */
  type CollectionHandle = nat

  /** The shared in-memory project handle. */
  datatype Project = Project(name: string, collection: CollectionHandle)

  datatype Entry =
    | Absent
    | Opening(waiters: seq<Waiter>)
    | Open(project: Project, refcount: nat)

  /** The database: whether a backend connection exists, the registry, and
      the status long-poll delay. */
  datatype Database = Database(connected: bool, projects: map<string, Entry>, timeout: nat)

  /** The registry entry for `name`; a missing key is `Absent`. */
  function EntryOf(db: Database, name: string): Entry
  {
    if name in db.projects then db.projects[name] else Absent
  }

  /** The reference count of `name`: its refcount when open, 0 otherwise. */
  function Refcount(db: Database, name: string): nat
  {
    match EntryOf(db, name)
    case Open(_, k) => k
    case _ => 0
  }

  predicate EntryWellFormed(name: string, e: Entry)
  {
    match e
    case Absent => false
    case Opening(q) => |q| >= 1
    case Open(p, k) => k >= 1 && p.name == name
  }

  /** The registry invariant: no stored `Absent`, a pending open has at
      least its first caller waiting, and an open project is referenced. */
  predicate WellFormed(db: Database)
  {
    forall name :: name in db.projects ==> EntryWellFormed(name, db.projects[name])
  }

  /** Nothing but the entry of `name` differs between `db` and `db'`. */
  predicate OnlyEntryChanged(db: Database, db': Database, name: string)
  {
    && db'.connected == db.connected
    && db'.timeout == db.timeout
    && db'.projects.Keys - {name} == db.projects.Keys - {name}
    && (forall n :: n != name && n in db.projects ==> n in db'.projects && db'.projects[n] == db.projects[n])
  }

  /** The property names every plain JavaScript object inherits from
      `Object.prototype` that also match the project pattern: the
      ECMAScript 5.1 methods, the legacy accessor helpers and `__proto__`.
      The registry is a plain object, so looking one of these names up
      yields the inherited value rather than `undefined`. */
  const InheritedNames: set<string> := {
    "constructor", "toString", "toLocaleString", "valueOf", "hasOwnProperty",
    "isPrototypeOf", "propertyIsEnumerable", "__defineGetter__",
    "__defineSetter__", "__lookupGetter__", "__lookupSetter__", "__proto__"
  }

  /** A name `openProject` accepts: it matches the project pattern, and it is
      not an inherited property, whose lookup is neither an open project, a
      pending open nor `undefined` and so fails the assertion that guards a
      fresh open. */
  predicate OpenableName(name: string)
  {
    MatchesProjectPattern(name) && name !in InheritedNames
  }

  /** A name of letters and underscores only matches the project pattern. */
  lemma WordName(s: string)
    requires forall i :: 0 <= i < |s| ==> s[i] == '_' || 'a' <= s[i] <= 'z' || 'A' <= s[i] <= 'Z'
    ensures MatchesProjectPattern(s)
  {
  }

  /** The pattern check alone does not keep inherited names out: every one
      of them matches it, so the second conjunct of `OpenableName` is a real
      restriction. */
  lemma InheritedNamesPassPattern(name: string)
    ensures name in InheritedNames ==> MatchesProjectPattern(name) && !OpenableName(name)
  {
    if name in InheritedNames {
      WordName(name);
    }
  }

  /** What `openProject` does for its caller right away. */
  datatype OpenStep =
    | Answered(waiter: Waiter, project: Project)  // the callback is called with the open handle
    | Queued                                      // the callback waits for the open in flight
    | Started(name: string)                       // the callback waits; one underlying open begins

  datatype OpenResult = OpenResult(db: Database, step: OpenStep)

  /** `openProject(name, cb)`: share an open handle, join a pending open, or
      start the one underlying open for this name. */
  function OpenProject(db: Database, name: string, cb: Waiter): (r: OpenResult)
    requires db.connected && OpenableName(name)
    ensures OnlyEntryChanged(db, r.db, name)
    ensures EntryOf(db, name).Open? ==>
      && EntryOf(r.db, name) == Open(EntryOf(db, name).project, EntryOf(db, name).refcount + 1)
      && r.step == Answered(cb, EntryOf(db, name).project)
    ensures EntryOf(db, name).Opening? ==>
      EntryOf(r.db, name) == Opening(EntryOf(db, name).waiters + [cb]) && r.step == Queued
    ensures EntryOf(db, name).Absent? ==>
      EntryOf(r.db, name) == Opening([cb]) && r.step == Started(name)
    ensures r.step.Started? <==> EntryOf(db, name).Absent?
    ensures WellFormed(db) ==> WellFormed(r.db)
  {
    match EntryOf(db, name)
    case Open(p, k) =>
      OpenResult(db.(projects := db.projects[name := Open(p, k + 1)]), Answered(cb, p))
    case Opening(q) =>
      OpenResult(db.(projects := db.projects[name := Opening(q + [cb])]), Queued)
    case Absent =>
      OpenResult(db.(projects := db.projects[name := Opening([cb])]), Started(name))
  }

  /** One callback invocation when a pending open resolves. */
  datatype Reply = Reply(waiter: Waiter, result: Result<Project, string>)

  datatype ResolveResult = ResolveResult(db: Database, replies: seq<Reply>)

  /** The same result delivered to every waiter, in queue order. */
  function NotifyAll(waiters: seq<Waiter>, result: Result<Project, string>): (rs: seq<Reply>)
    ensures |rs| == |waiters|
    ensures forall i :: 0 <= i < |rs| ==> rs[i] == Reply(waiters[i], result)
  {
    seq(|waiters|, i requires 0 <= i < |waiters| => Reply(waiters[i], result))
  }

  /** The refcount `_openProject` gives a freshly opened project. */
  const FreshRefcount: nat := 1

  /** Install the outcome of the open of `name`, the project's refcount
      becoming `base` plus the number of waiters. */
  function Resolve(db: Database, name: string, outcome: Result<CollectionHandle, string>, base: nat): (r: ResolveResult)
    requires EntryOf(db, name).Opening?
    ensures OnlyEntryChanged(db, r.db, name)
    ensures |r.replies| == |EntryOf(db, name).waiters|
    ensures outcome.Failure? ==>
      && name !in r.db.projects
      && forall i :: 0 <= i < |r.replies| ==>
           r.replies[i] == Reply(EntryOf(db, name).waiters[i], Failure(outcome.error))
    ensures outcome.Success? ==>
      && EntryOf(r.db, name) == Open(Project(name, outcome.value), base + |EntryOf(db, name).waiters|)
      && forall i :: 0 <= i < |r.replies| ==>
           r.replies[i] == Reply(EntryOf(db, name).waiters[i], Success(Project(name, outcome.value)))
    ensures WellFormed(db) ==> WellFormed(r.db)
  {
    var q := EntryOf(db, name).waiters;
    match outcome
    case Failure(e) =>
      ResolveResult(db.(projects := db.projects - {name}), NotifyAll(q, Failure(e)))
    case Success(h) =>
      var p := Project(name, h);
      ResolveResult(db.(projects := db.projects[name := Open(p, base + |q|)]), NotifyAll(q, Success(p)))
  }

  /** The resolution of `openProject` as written: the fresh project already
      counts one reference and then gains one per waiter, the first caller
      included, so the refcount is one more than the number of callers. */
  function ResolveOpen(db: Database, name: string, outcome: Result<CollectionHandle, string>): (r: ResolveResult)
    requires EntryOf(db, name).Opening?
    ensures OnlyEntryChanged(db, r.db, name)
    ensures |r.replies| == |EntryOf(db, name).waiters|
    ensures outcome.Failure? ==>
      && name !in r.db.projects
      && forall i :: 0 <= i < |r.replies| ==>
           r.replies[i] == Reply(EntryOf(db, name).waiters[i], Failure(outcome.error))
    ensures outcome.Success? ==>
      && EntryOf(r.db, name) == Open(Project(name, outcome.value), 1 + |EntryOf(db, name).waiters|)
      && forall i :: 0 <= i < |r.replies| ==>
           r.replies[i] == Reply(EntryOf(db, name).waiters[i], Success(Project(name, outcome.value)))
    ensures WellFormed(db) ==> WellFormed(r.db)
  {
    Resolve(db, name, outcome, FreshRefcount)
  }

  /** The resolution with one reference per caller. */
  function ResolveOpenCorrected(db: Database, name: string, outcome: Result<CollectionHandle, string>): (r: ResolveResult)
    requires EntryOf(db, name).Opening?
    ensures OnlyEntryChanged(db, r.db, name)
    ensures |r.replies| == |EntryOf(db, name).waiters|
    ensures outcome.Failure? ==>
      && name !in r.db.projects
      && forall i :: 0 <= i < |r.replies| ==>
           r.replies[i] == Reply(EntryOf(db, name).waiters[i], Failure(outcome.error))
    ensures outcome.Success? ==>
      && EntryOf(r.db, name) == Open(Project(name, outcome.value), |EntryOf(db, name).waiters|)
      && forall i :: 0 <= i < |r.replies| ==>
           r.replies[i] == Reply(EntryOf(db, name).waiters[i], Success(Project(name, outcome.value)))
    ensures WellFormed(db) ==> WellFormed(r.db)
  {
    Resolve(db, name, outcome, 0)
  }

  /** `closeProject`: drop one reference; the last one removes the project
      from the registry. */
  function CloseProject(db: Database, p: Project): (r: Database)
    requires EntryOf(db, p.name) == Open(p, Refcount(db, p.name)) && Refcount(db, p.name) >= 1
    ensures OnlyEntryChanged(db, r, p.name)
    ensures Refcount(r, p.name) == Refcount(db, p.name) - 1
    ensures p.name in r.projects <==> Refcount(db, p.name) > 1
    ensures p.name in r.projects ==> EntryOf(r, p.name).Open? && EntryOf(r, p.name).project == p
    ensures WellFormed(db) ==> WellFormed(r)
  {
    var k := Refcount(db, p.name);
    if k - 1 == 0 then db.(projects := db.projects - {p.name})
    else db.(projects := db.projects[p.name := Open(p, k - 1)])
  }

  /** `deleteProject`: the backend drops the collection; the registry is not
      consulted, so a live handle stays registered (it is orphaned). A
      failed drop leaves the collections as they were. */
  datatype DeleteResult = DeleteResult(db: Database, collections: set<string>, error: Option<string>)

  function DeleteProject(db: Database, collections: set<string>, name: string, dropError: Option<string>): (r: DeleteResult)
    requires db.connected && MatchesProjectPattern(name)
    ensures r.db == db
    ensures r.error == dropError
    ensures r.collections <= collections
    ensures r.error.None? ==> name !in r.collections && collections - r.collections <= {name}
    ensures r.error.Some? ==> r.collections == collections
  {
    match dropError
    case None => DeleteResult(db, collections - {name}, None)
    case Some(e) => DeleteResult(db, collections, Some(e))
  }

  /** `deleteProject` never looks the name up in the registry, so every
      inherited name, which `openProject` refuses, is dropped like any
      other. */
  lemma DeleteInheritedName(db: Database, collections: set<string>, name: string)
    requires db.connected && name in InheritedNames
    ensures MatchesProjectPattern(name) && !OpenableName(name)
    ensures DeleteProject(db, collections, name, None).collections == collections - {name}
  {
    InheritedNamesPassPattern(name);
  }

  /** Deleting an open project orphans its handle: the collection is gone,
      yet the next open answers with the stale handle instead of opening
      the project afresh. */
  lemma DeleteOrphansOpenHandle(db: Database, collections: set<string>, name: string, cb: Waiter)
    requires db.connected && OpenableName(name) && EntryOf(db, name).Open?
    ensures var d := DeleteProject(db, collections, name, None);
      && name !in d.collections
      && OpenProject(d.db, name, cb).step == Answered(cb, EntryOf(db, name).project)
  {
  }

  /** `k` opens of `name` in a row, one per waiter. */
  function OpenAll(db: Database, name: string, waiters: seq<Waiter>): (r: (Database, seq<OpenStep>))
    requires db.connected && OpenableName(name)
    ensures r.0.connected && |r.1| == |waiters|
    ensures OnlyEntryChanged(db, r.0, name)
    ensures WellFormed(db) ==> WellFormed(r.0)
  {
    if |waiters| == 0 then (db, [])
    else
      var prev := OpenAll(db, name, waiters[..|waiters| - 1]);
      var o := OpenProject(prev.0, name, waiters[|waiters| - 1]);
      (o.db, prev.1 + [o.step])
  }

  /** Open coalescing: callers that ask for an absent project before its
      open resolves start exactly one underlying open (the first) and are
      all queued behind it, in order. */
  lemma {:induction false} CoalescedOpens(db: Database, name: string, waiters: seq<Waiter>)
    requires db.connected && OpenableName(name) && EntryOf(db, name).Absent?
    requires |waiters| >= 1
    ensures var r := OpenAll(db, name, waiters);
      && EntryOf(r.0, name) == Opening(waiters)
      && r.1[0] == Started(name)
      && forall i :: 1 <= i < |waiters| ==> r.1[i] == Queued
    decreases |waiters|
  {
    if |waiters| > 1 {
      var init := waiters[..|waiters| - 1];
      CoalescedOpens(db, name, init);
      assert init + [waiters[|waiters| - 1]] == waiters;
    }
  }

  /** `k` closes of the same handle. */
  function CloseTimes(db: Database, p: Project, k: nat): (r: Database)
    requires EntryOf(db, p.name) == Open(p, Refcount(db, p.name))
    requires Refcount(db, p.name) >= 1 && Refcount(db, p.name) >= k
    ensures OnlyEntryChanged(db, r, p.name)
    ensures Refcount(r, p.name) == Refcount(db, p.name) - k
    ensures p.name in r.projects <==> Refcount(db, p.name) > k
    ensures p.name in r.projects ==> EntryOf(r, p.name) == Open(p, Refcount(r, p.name))
  {
    if k == 0 then db
    else
      var prev := CloseTimes(db, p, k - 1);
      CloseProject(prev, p)
  }

  /** As written, K coalesced callers that each close once leave the
      project registered with one reference: it can never be removed. */
  lemma {:induction false} OpenCloseLeaksAsWritten(db: Database, name: string, waiters: seq<Waiter>, h: CollectionHandle)
    requires db.connected && OpenableName(name) && EntryOf(db, name).Absent?
    requires |waiters| >= 1
    ensures EntryOf(OpenAll(db, name, waiters).0, name) == Opening(waiters) &&
      var shared := ResolveOpen(OpenAll(db, name, waiters).0, name, Success(h));
      && Refcount(shared.db, name) == |waiters| + 1
      && (forall i :: 0 <= i < |waiters| ==> shared.replies[i] == Reply(waiters[i], Success(Project(name, h))))
      && var closed := CloseTimes(shared.db, Project(name, h), |waiters|);
         && EntryOf(closed, name) == Open(Project(name, h), 1)
  {
    CoalescedOpens(db, name, waiters);
    var pending := OpenAll(db, name, waiters).0;
    var shared := Resolve(pending, name, Success(h), FreshRefcount);
    assert EntryOf(shared.db, name) == Open(Project(name, h), 1 + |waiters|);
  }

  /** With one reference per caller, K coalesced callers that each close
      once remove the project, and the next open starts afresh. */
  lemma {:induction false} OpenCloseBalancedCorrected(db: Database, name: string, waiters: seq<Waiter>, h: CollectionHandle, next: Waiter)
    requires db.connected && OpenableName(name) && EntryOf(db, name).Absent?
    requires |waiters| >= 1
    ensures EntryOf(OpenAll(db, name, waiters).0, name) == Opening(waiters) &&
      var shared := ResolveOpenCorrected(OpenAll(db, name, waiters).0, name, Success(h));
      && Refcount(shared.db, name) == |waiters|
      && (forall i :: 0 <= i < |waiters| ==> shared.replies[i] == Reply(waiters[i], Success(Project(name, h))))
      && var closed := CloseTimes(shared.db, Project(name, h), |waiters|);
         && name !in closed.projects
         && closed.connected
         && OpenProject(closed, name, next).step == Started(name)
  {
    CoalescedOpens(db, name, waiters);
    var pending := OpenAll(db, name, waiters).0;
    var shared := Resolve(pending, name, Success(h), 0);
    assert EntryOf(shared.db, name) == Open(Project(name, h), |waiters|);
  }

  /** A failed open notifies every waiter of the error and clears the
      entry, so a retry starts a fresh underlying open. */
  lemma {:induction false} FailedOpenAllowsRetry(db: Database, name: string, waiters: seq<Waiter>, e: string, next: Waiter)
    requires db.connected && OpenableName(name) && EntryOf(db, name).Absent?
    requires |waiters| >= 1
    ensures EntryOf(OpenAll(db, name, waiters).0, name) == Opening(waiters) &&
      var failed := ResolveOpen(OpenAll(db, name, waiters).0, name, Failure(e));
      && (forall i :: 0 <= i < |waiters| ==> failed.replies[i] == Reply(waiters[i], Failure(e)))
      && EntryOf(failed.db, name) == Absent
      && OpenProject(failed.db, name, next).step == Started(name)
  {
    CoalescedOpens(db, name, waiters);
  }
}
