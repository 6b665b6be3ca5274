/** The mutable half of a project's collection: named branch pointers,
    each holding one object hash, changed only by compare-and-swap against
    the value the caller last saw. A branch that does not exist reads as
    the empty hash "". */
module Branches {
  import opened Outcomes
  import opened Identifiers

  /** Branch name (`*` sigil) to the hash it points at. */
  type BranchTable = map<string, string>

  /** Every stored branch has a valid name and points at a valid hash, so
      no stored value is the empty "absent" marker. */
  predicate ValidTable(t: BranchTable)
  {
    forall name :: name in t ==> MatchesBranchPattern(name) && MatchesHashPattern(t[name])
  }

  /** The value a branch reads as: its stored hash, or "" when absent. */
  function GetBranchHash(t: BranchTable, name: string): (h: string)
    ensures ValidTable(t) ==> (h == "" <==> name !in t)
    ensures name in t ==> h == t[name]
  {
    if name in t then t[name] else ""
  }

  /** What `_setHash` asserts of its arguments: each of old and new is ""
      or a valid hash, and they are not both "". */
  predicate CasArguments(oldHash: string, newHash: string)
  {
    && (oldHash == "" || MatchesHashPattern(oldHash))
    && (newHash == "" || MatchesHashPattern(newHash))
    && (oldHash != "" || newHash != "")
  }

  datatype CasOutcome = Changed | Conflict

  datatype CasResult = CasResult(table: BranchTable, outcome: CasOutcome)

  /** The three conditional writes of `_setHash`: insert when old is "",
      remove filtered by the expected hash when new is "", update filtered
      by the expected hash otherwise. The outcome says whether the write
      matched a document. */
  function SetHash(t: BranchTable, name: string, oldHash: string, newHash: string): (r: CasResult)
    requires MatchesBranchPattern(name) && CasArguments(oldHash, newHash)
    ensures r.outcome == Changed <==>
      (if oldHash == "" then name !in t else name in t && t[name] == oldHash)
    ensures r.outcome == Conflict ==> r.table == t
    ensures r.outcome == Changed ==> GetBranchHash(r.table, name) == newHash
    ensures r.outcome == Changed ==> (name in r.table <==> newHash != "")
    ensures forall other :: other != name ==>
      (other in r.table <==> other in t) && (other in t ==> r.table[other] == t[other])
  {
    if oldHash == "" then
      if name in t then CasResult(t, Conflict)
      else CasResult(t[name := newHash], Changed)
    else if newHash == "" then
      if name in t && t[name] == oldHash then CasResult(t - {name}, Changed)
      else CasResult(t, Conflict)
    else
      if name in t && t[name] == oldHash then CasResult(t[name := newHash], Changed)
      else CasResult(t, Conflict)
  }

  /** On a valid table the three cases are one compare-and-swap: the write
      happens iff the branch currently reads as the expected old hash, and
      the table stays valid. */
  lemma SetHashIsCompareAndSwap(t: BranchTable, name: string, oldHash: string, newHash: string)
    requires MatchesBranchPattern(name) && CasArguments(oldHash, newHash)
    ensures ValidTable(t) ==>
      var r := SetHash(t, name, oldHash, newHash);
      && (r.outcome == Changed <==> GetBranchHash(t, name) == oldHash)
      && ValidTable(r.table)
  {
    var r := SetHash(t, name, oldHash, newHash);
    forall other | ValidTable(t) && other in r.table
      ensures MatchesBranchPattern(other) && MatchesHashPattern(r.table[other])
    {
      if other != name {
        assert other in t;
      }
    }
  }

  /** Successful writes to one branch form a linear history: a second
      successful write must have expected the value the first one wrote. */
  lemma SuccessfulWritesChain(t: BranchTable, name: string, a: string, b: string, c: string, d: string)
    requires ValidTable(t) && MatchesBranchPattern(name)
    requires CasArguments(a, b) && CasArguments(c, d)
    requires SetHash(t, name, a, b).outcome == Changed
    requires SetHash(SetHash(t, name, a, b).table, name, c, d).outcome == Changed
    ensures c == b
  {
    var t1 := SetHash(t, name, a, b).table;
    assert ValidTable(t1) by {
      SetHashIsCompareAndSwap(t, name, a, b);
    }
    SetHashIsCompareAndSwap(t, name, a, b);
    SetHashIsCompareAndSwap(t1, name, c, d);
  }

  /** Creating an existing branch conflicts and keeps the stored hash;
      updating from a hash the branch has moved away from conflicts too, so
      an identical retry of a successful update fails. */
  lemma CreateTwiceAndRetryConflict(t: BranchTable, name: string, h1: string, h2: string)
    requires ValidTable(t) && MatchesBranchPattern(name) && name !in t
    requires MatchesHashPattern(h1) && MatchesHashPattern(h2) && h1 != h2
    ensures var t1 := SetHash(t, name, "", h1);
      && t1.outcome == Changed && GetBranchHash(t1.table, name) == h1
      && SetHash(t1.table, name, "", h2) == CasResult(t1.table, Conflict)
      && var t2 := SetHash(t1.table, name, h1, h2);
         && t2.outcome == Changed && GetBranchHash(t2.table, name) == h2
         && SetHash(t2.table, name, h1, h2) == CasResult(t2.table, Conflict)
  {
  }

  /** What mongo2.js's `_setHash` tells its caller: only the backend's own
      answer. `fault` is a transport failure of the insert, remove or update,
      which is passed on. Otherwise a conditional remove or update that
      matched nothing is no error at all, and an insert of an existing
      branch is refused by the backend as a duplicate key. */
  function SetHashReportAsWritten(t: BranchTable, name: string, oldHash: string, newHash: string, fault: Option<string>): (err: Option<StoreError>)
    requires MatchesBranchPattern(name) && CasArguments(oldHash, newHash)
    ensures fault.Some? ==> err == Some(Driver(fault.value))
    ensures fault.None? && oldHash != "" ==> err.None?
    ensures fault.None? && oldHash == "" ==> (err.Some? <==> name in t)
    ensures err.Some? && fault.None? ==> err.value == DuplicateKey(name)
  {
    if fault.Some? then Some(Driver(fault.value))
    else if oldHash == "" && name in t then Some(DuplicateKey(name))
    else None
  }

  /** The outcome the caller should see: a transport failure is passed on,
      and a conflict is an error even when the backend call itself went
      through. */
  function SetHashReport(t: BranchTable, name: string, oldHash: string, newHash: string, fault: Option<string>): (err: Option<StoreError>)
    requires MatchesBranchPattern(name) && CasArguments(oldHash, newHash)
    ensures fault.Some? ==> err == Some(Driver(fault.value))
    ensures fault.None? ==> (err.None? <==> SetHash(t, name, oldHash, newHash).outcome == Changed)
    ensures fault.None? && err.Some? ==> err.value == BranchConflict(name)
  {
    if fault.Some? then Some(Driver(fault.value))
    else if SetHash(t, name, oldHash, newHash).outcome == Changed then None
    else Some(BranchConflict(name))
  }

  /** As written, a lost update race is reported as success: the update
      below matches nothing and leaves the table as it was, yet the caller
      receives no error. The corrected report surfaces the conflict. */
  lemma LostUpdateNotReportedAsWritten()
    ensures var t := map["*master" := "#a1"];
      && SetHash(t, "*master", "#b2", "#c3") == CasResult(t, Conflict)
      && SetHashReportAsWritten(t, "*master", "#b2", "#c3", None) == None
      && SetHashReport(t, "*master", "#b2", "#c3", None) == Some(BranchConflict("*master"))
  {
    var t := map["*master" := "#a1"];
    assert MatchesHashPattern("#b2") by {
      assert "#b2"[1..] == "b2";
    }
    assert MatchesHashPattern("#c3") by {
      assert "#c3"[1..] == "c3";
    }
    assert MatchesBranchPattern("*master") by {
      assert "*master"[1..] == "master";
    }
  }

  /** The argument check at the head of mongo2.js's `setBranchHash`: both
      hashes must match the hash pattern, so "" is refused. */
  predicate SetBranchHashAdmitsAsWritten(name: string, oldHash: string, newHash: string)
  {
    MatchesBranchPattern(name) && MatchesHashPattern(oldHash) && MatchesHashPattern(newHash)
  }

  /** As written, `setBranchHash` can never create or delete a branch:
      its check refuses the empty hash that marks "absent". */
  lemma SetBranchHashCannotCreateOrDeleteAsWritten(name: string, h: string)
    ensures !SetBranchHashAdmitsAsWritten(name, "", h)
    ensures !SetBranchHashAdmitsAsWritten(name, h, "")
  {
  }

  /** `setBranchHash` with the admission `_setHash` itself uses: the
      branch name must be valid and old/new are "" or hashes, not both "". */
  function SetBranchHash(t: BranchTable, name: string, oldHash: string, newHash: string): (r: CasResult)
    requires MatchesBranchPattern(name) && CasArguments(oldHash, newHash)
    ensures ValidTable(t) ==> ValidTable(r.table)
    ensures ValidTable(t) ==> (r.outcome == Changed <==> GetBranchHash(t, name) == oldHash)
    ensures r.outcome == Changed ==> GetBranchHash(r.table, name) == newHash
    ensures r.outcome == Conflict ==> r.table == t
    ensures forall other :: other != name ==> GetBranchHash(r.table, other) == GetBranchHash(t, other)
  {
    SetHashIsCompareAndSwap(t, name, oldHash, newHash);
    SetHash(t, name, oldHash, newHash)
  }

  /** With the corrected admission a branch can be created, moved and
      deleted through `setBranchHash`. */
  lemma BranchLifecycle(t: BranchTable, name: string, h1: string, h2: string)
    requires ValidTable(t) && MatchesBranchPattern(name) && name !in t
    requires MatchesHashPattern(h1) && MatchesHashPattern(h2)
    ensures var c := SetBranchHash(t, name, "", h1);
      && c.outcome == Changed && GetBranchHash(c.table, name) == h1
      && var u := SetBranchHash(c.table, name, h1, h2);
         && u.outcome == Changed && GetBranchHash(u.table, name) == h2
         && var d := SetBranchHash(u.table, name, h2, "");
            && d.outcome == Changed && name !in d.table && d.table == t
  {
    var c := SetBranchHash(t, name, "", h1);
    var u := SetBranchHash(c.table, name, h1, h2);
    var d := SetBranchHash(u.table, name, h2, "");
    assert d.table == t;
  }

  /** One branch document as the `^\*` id query returns it. */
  datatype BranchDoc = BranchDoc(id: string, hash: string)

  /** The ids of a document listing. */
  function Ids(docs: seq<BranchDoc>): set<string>
  {
    if |docs| == 0 then {} else Ids(docs[..|docs| - 1]) + {docs[|docs| - 1].id}
  }

  lemma {:induction false} IdsMembership(docs: seq<BranchDoc>, id: string)
    ensures id in Ids(docs) <==> exists k :: 0 <= k < |docs| && docs[k].id == id
    decreases |docs|
  {
    if |docs| > 0 {
      var init := docs[..|docs| - 1];
      IdsMembership(init, id);
      if exists k :: 0 <= k < |docs| && docs[k].id == id {
        var k :| 0 <= k < |docs| && docs[k].id == id;
        if k < |docs| - 1 {
          assert init[k].id == id;
        }
      }
      if exists k :: 0 <= k < |init| && init[k].id == id {
        var k :| 0 <= k < |init| && init[k].id == id;
        assert docs[k].id == id;
      }
    }
  }

  /** The name-to-hash map `getBranchNames` builds from the documents, a
      later document overriding an earlier one with the same id. */
  function BranchMap(docs: seq<BranchDoc>): (m: BranchTable)
    ensures m.Keys == Ids(docs)
  {
    if |docs| == 0 then map[]
    else
      var last := |docs| - 1;
      BranchMap(docs[..last])[docs[last].id := docs[last].hash]
  }

  /** No document after position `k` has the id of the one at `k`. */
  predicate LastWithId(docs: seq<BranchDoc>, k: nat)
    requires k < |docs|
  {
    forall j :: k < j < |docs| ==> docs[j].id != docs[k].id
  }

  /** Each id maps to the hash of its last document. */
  lemma {:induction false} BranchMapLastWins(docs: seq<BranchDoc>, k: nat)
    requires k < |docs| && LastWithId(docs, k)
    ensures docs[k].id in BranchMap(docs) && BranchMap(docs)[docs[k].id] == docs[k].hash
    decreases |docs|
  {
    var last := |docs| - 1;
    if k < last {
      var init := docs[..last];
      assert init[k] == docs[k];
      assert LastWithId(init, k) by {
        forall j | k < j < |init|
          ensures init[j].id != init[k].id
        {
          assert init[j] == docs[j];
        }
      }
      BranchMapLastWins(init, k);
      assert docs[last].id != docs[k].id;
    }
  }

  /** `docs` lists every branch of `t` exactly once, with its hash. */
  predicate Enumerates(docs: seq<BranchDoc>, t: BranchTable)
  {
    && (forall j, k :: 0 <= j < k < |docs| ==> docs[j].id != docs[k].id)
    && (forall k :: 0 <= k < |docs| ==> docs[k].id in t && t[docs[k].id] == docs[k].hash)
    && (forall name :: name in t ==> exists k :: 0 <= k < |docs| && docs[k].id == name)
  }

  /** Building the map from any one-per-branch listing gives back the
      branch table. */
  lemma BranchMapOfEnumeration(docs: seq<BranchDoc>, t: BranchTable)
    requires Enumerates(docs, t)
    ensures BranchMap(docs) == t
  {
    var m := BranchMap(docs);
    forall id | id in m
      ensures id in t && m[id] == t[id]
    {
      IdsMembership(docs, id);
      var k :| 0 <= k < |docs| && docs[k].id == id;
      assert LastWithId(docs, k);
      BranchMapLastWins(docs, k);
    }
    forall id | id in t
      ensures id in m
    {
      IdsMembership(docs, id);
    }
    assert m.Keys == t.Keys;
  }

  /** `getBranchNames` as written: a failed query is passed on, but on
      success the map is built and the callback is never called, which the
      model states as "no answer" (`None`). */
  function GetBranchNamesAsWritten(query: Result<seq<BranchDoc>, string>): (answer: Option<Result<BranchTable, StoreError>>)
    ensures answer.None? <==> query.Success?
    ensures query.Failure? ==> answer == Some(Failure(Driver(query.error)))
  {
    match query
    case Failure(e) => Some(Failure(Driver(e)))
    case Success(_) => None
  }

  /** `getBranchNames` answering on both paths. */
  function GetBranchNames(query: Result<seq<BranchDoc>, string>): (answer: Result<BranchTable, StoreError>)
    ensures query.Failure? ==> answer == Failure(Driver(query.error))
    ensures query.Success? ==>
      answer.Success? && answer.value.Keys == Ids(query.value)
  {
    match query
    case Failure(e) => Failure(Driver(e))
    case Success(docs) => Success(BranchMap(docs))
  }

  /** The corrected listing answers a successful query that enumerates the
      branches with exactly the branch table; as written it never answers. */
  lemma GetBranchNamesAnswers(docs: seq<BranchDoc>, t: BranchTable)
    requires Enumerates(docs, t)
    ensures GetBranchNames(Success(docs)) == Success(t)
    ensures GetBranchNamesAsWritten(Success(docs)) == None
  {
    BranchMapOfEnumeration(docs, t);
  }
}
