/** The database connection as the store sees it: construction defaults,
    liveness status with report-on-change long polling, the fsync fan-out
    over the backend's physical connections, closing, and the listing of
    project names. The backend calls themselves (ping, lastError,
    collectionNames, close) are inputs to these functions. */
module Connection {
  import opened Outcomes
  import opened Identifiers
  import opened Registry

  /** Status long-poll delay, in milliseconds, when none is configured. */
  const DefaultTimeout: nat := 1000

  /** `new Database(options)` as far as the store's logic goes: no
      connection, an empty registry, and the delay `options.timeout || 1000`
      (a configured 0 is falsy and also yields the default). */
  function NewDatabase(timeoutOption: Option<nat>): (db: Database)
    ensures !db.connected && db.projects == map[] && WellFormed(db)
    ensures db.timeout >= 1
    ensures timeoutOption.Some? && timeoutOption.value > 0 ==> db.timeout == timeoutOption.value
    ensures timeoutOption.None? || timeoutOption.value == 0 ==> db.timeout == DefaultTimeout
  {
    var t := match timeoutOption
      case Some(v) => if v == 0 then DefaultTimeout else v
      case None => DefaultTimeout;
    Database(false, map[], t)
  }

  datatype Status = Closed | Unreachable | Connected

  /** The status strings the store reports. */
  function StatusText(s: Status): string
  {
    match s
    case Closed => "mongodb closed"
    case Unreachable => "mongodb unreachable"
    case Connected => "connected"
  }

  /** Distinct statuses have distinct strings, so comparing strings is
      comparing statuses. */
  lemma StatusTextInjective(s: Status, t: Status)
    ensures StatusText(s) == StatusText(t) <==> s == t
  {
    if s != t {
      if s == Connected || t == Connected {
        assert StatusText(s)[0] != StatusText(t)[0];
      } else {
        assert StatusText(s)[8] != StatusText(t)[8];
      }
    }
  }

  /** The liveness classification of `getDatabaseStatus`; the ping outcome
      matters only when a connection exists. */
  function ObserveStatus(db: Database, pingFailed: bool): (s: Status)
    ensures s == Closed <==> !db.connected
    ensures s == Unreachable <==> db.connected && pingFailed
    ensures s == Connected <==> db.connected && !pingFailed
  {
    if !db.connected then Closed
    else if pingFailed then Unreachable
    else Connected
  }

  /** When the callback receives a status report. */
  datatype Delivery = Immediately | After(milliseconds: nat)

  datatype Report = Report(status: string, delivery: Delivery)

  /** `_reportStatus`: a changed status is reported at once; an unchanged
      one only after the configured delay. */
  function ReportStatus(oldStatus: Option<string>, newStatus: Status, timeout: nat): (r: Report)
    ensures r.status == StatusText(newStatus)
    ensures r.delivery == Immediately <==> oldStatus != Some(StatusText(newStatus))
    ensures r.delivery != Immediately ==> r.delivery == After(timeout)
  {
    if oldStatus != Some(StatusText(newStatus)) then Report(StatusText(newStatus), Immediately)
    else Report(StatusText(newStatus), After(timeout))
  }

  /** `getDatabaseStatus(oldstatus)`: observe the status and report it. */
  function GetDatabaseStatus(db: Database, oldStatus: Option<string>, pingFailed: bool): (r: Report)
    ensures r.status == StatusText(ObserveStatus(db, pingFailed))
    ensures r.delivery == Immediately <==> oldStatus != Some(r.status)
    ensures r.delivery != Immediately ==> r.delivery == After(db.timeout)
  {
    ReportStatus(oldStatus, ObserveStatus(db, pingFailed), db.timeout)
  }

  /** A monitor that passes back the status it was last told is held back
      exactly while the status stays the same, and told at once when it
      changes. */
  lemma MonitorWaitsUntilChange(db: Database, db': Database, ping: bool, ping': bool)
    ensures var first := GetDatabaseStatus(db, None, ping);
      && first.delivery == Immediately
      && var second := GetDatabaseStatus(db', Some(first.status), ping');
         (second.delivery == Immediately <==> ObserveStatus(db', ping') != ObserveStatus(db, ping))
  {
    StatusTextInjective(ObserveStatus(db', ping'), ObserveStatus(db, ping));
  }

  /** What one physical connection's fsync request reports: a transport
      error, or the error field of its first result document. */
  datatype Completion = Completion(err: Option<string>, resultErr: Option<string>)

  /** One step of the fsync fold: an error already held wins; otherwise
      this completion's transport error, and failing that its result
      error. */
  function MergeError(error: Option<string>, c: Completion): Option<string>
  {
    if error.Some? then error
    else if c.err.Some? then c.err
    else c.resultErr
  }

  /** Reference definition: the first error, in completion order, among
      all transport and result errors. */
  function FirstError(cs: seq<Completion>): (e: Option<string>)
    ensures e.None? <==> forall i :: 0 <= i < |cs| ==> cs[i].err.None? && cs[i].resultErr.None?
  {
    if |cs| == 0 then None
    else if cs[0].err.Some? then cs[0].err
    else if cs[0].resultErr.Some? then cs[0].resultErr
    else FirstError(cs[1..])
  }

  lemma {:induction false} FirstErrorSnoc(cs: seq<Completion>, c: Completion)
    ensures FirstError(cs + [c]) == MergeError(FirstError(cs), c)
    decreases |cs|
  {
    if |cs| == 0 {
      assert FirstError([c] + []) == MergeError(None, c) by {
        assert ([c] + [])[1..] == [];
      }
      assert [] + [c] == [c] + [];
    } else {
      assert (cs + [c])[1..] == cs[1..] + [c];
      FirstErrorSnoc(cs[1..], c);
    }
  }

  /** What happens to the caller's callback as one completion arrives. */
  datatype Callback = NotCalled | Called(error: Option<string>)

  /** `fsyncDatabase`: one durability request per physical connection. The
      completions arrive in `completions` order; `answers[i]` is what
      happens to the callback as completion `i` arrives. It is called once,
      on the last completion, with the first error seen. */
  method FsyncDatabase(db: Database, connections: nat, completions: seq<Completion>)
    returns (answers: seq<Callback>)
    requires db.connected && connections >= 1 && |completions| == connections
    ensures |answers| == connections
    ensures forall i :: 0 <= i < connections - 1 ==> answers[i] == NotCalled
    ensures answers[connections - 1] == Called(FirstError(completions))
  {
    var error: Option<string> := None;
    var synced := 0;
    answers := [];
    while synced < |completions|
      invariant 0 <= synced <= |completions|
      invariant error == FirstError(completions[..synced])
      invariant |answers| == synced
      invariant forall i :: 0 <= i < synced && i < connections - 1 ==> answers[i] == NotCalled
      invariant synced == connections ==> answers[connections - 1] == Called(error)
    {
      FirstErrorSnoc(completions[..synced], completions[synced]);
      assert completions[..synced + 1] == completions[..synced] + [completions[synced]];
      error := MergeError(error, completions[synced]);
      synced := synced + 1;
      if synced == connections {
        answers := answers + [Called(error)];
      } else {
        answers := answers + [NotCalled];
      }
    }
    assert completions[..synced] == completions;
  }

  datatype Closing = Closing(db: Database, answer: Option<string>)

  /** `closeDatabase`: fsync, then disconnect; the caller always receives
      success, whatever the fsync reported. The registry is left as it is. */
  function CloseDatabase(db: Database, fsyncError: Option<string>): (r: Closing)
    ensures !r.db.connected
    ensures r.answer.None?
    ensures r.db.projects == db.projects && r.db.timeout == db.timeout
  {
    if db.connected then Closing(db.(connected := false), None)
    else Closing(db, None)
  }

  /** Closing twice is closing once, and a closed database reports the
      closed status. */
  lemma CloseIsIdempotent(db: Database, e1: Option<string>, e2: Option<string>, ping: bool)
    ensures var once := CloseDatabase(db, e1).db;
      && CloseDatabase(once, e2).db == once
      && ObserveStatus(once, ping) == Closed
  {
  }

  /** `getProjectNames` given the backend's collection listing. */
  method GetProjectNames(db: Database, listing: Result<seq<string>, string>)
    returns (r: Result<seq<string>, StoreError>)
    requires db.connected
    ensures listing.Failure? ==> r == Failure(Driver(listing.error))
    ensures listing.Success? ==> r.Success? && r.value == ValidSuffixes(listing.value)
    ensures r.Success? ==> forall j :: 0 <= j < |r.value| ==> ValidProjectName(r.value[j])
  {
    match listing
    case Failure(e) =>
      r := Failure(Driver(e));
    case Success(collections) =>
      var names := ListProjectNames(collections);
      ValidSuffixesAreValid(collections);
      r := Success(names);
  }
}
