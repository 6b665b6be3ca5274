/** The immutable half of a project's collection: objects keyed by their
    content hash, with exact lookup, insert-only writes and hash-prefix
    resolution. Hashes are checked for syntax only; the store never
    recomputes a hash from an object's content. */
module ObjectStore {
  import opened Outcomes
  import opened Identifiers

  /** An object's body, opaque to the store. */
  type Payload = seq<char>

  /** The object documents of a project's collection. The backend keeps
      objects and branch documents in one collection and tells them apart by
      the sigil of the document id (`#` for objects, `*` for branches); the
      branch documents are the `Branches` module's table. */
  datatype Collection = Collection(objects: map<string, Payload>)

  /** `loadObject`: exact-match fetch. `fault` is a transport failure of the
      backend's `findOne`, passed on to the caller; otherwise the backend
      answers "no document" rather than an error when the hash is not
      stored. */
  function LoadObject(c: Collection, hash: string, fault: Option<string>): (r: Result<Option<Payload>, StoreError>)
    requires MatchesHashPattern(hash)
    ensures r.Failure? <==> fault.Some?
    ensures r.Failure? ==> r.error == Driver(fault.value)
    ensures r.Success? ==> (r.value.Some? <==> hash in c.objects)
    ensures r.Success? && r.value.Some? ==> r.value.value == c.objects[hash]
  {
    if fault.Some? then Failure(Driver(fault.value))
    else if hash in c.objects then Success(Some(c.objects[hash]))
    else Success(None)
  }

  /** `insertObject`: append-only. `fault` is a transport failure of the
      backend's `insert`, passed on to the caller with nothing written;
      otherwise the backend refuses a second document with an id that is
      already stored. */
  function InsertObject(c: Collection, id: string, body: Payload, fault: Option<string>): (r: Result<Collection, StoreError>)
    requires MatchesHashPattern(id)
    ensures r.Failure? <==> fault.Some? || id in c.objects
    ensures fault.Some? ==> r == Failure(Driver(fault.value))
    ensures fault.None? && r.Failure? ==> r.error == DuplicateKey(id)
    ensures r.Success? ==>
      && r.value.objects.Keys == c.objects.Keys + {id}
      && LoadObject(r.value, id, None) == Success(Some(body))
      && (forall h :: h in c.objects ==> r.value.objects[h] == c.objects[h])
  {
    if fault.Some? then Failure(Driver(fault.value))
    else if id in c.objects then Failure(DuplicateKey(id))
    else Success(c.(objects := c.objects[id := body]))
  }

  /** Objects are immutable: once an id is stored, no later insert of that
      id succeeds and every fault-free load keeps returning the first body. */
  lemma InsertedObjectIsImmutable(c: Collection, id: string, first: Payload, second: Payload, fault: Option<string>)
    requires MatchesHashPattern(id) && id !in c.objects
    ensures InsertObject(c, id, first, None).Success?
    ensures var c' := InsertObject(c, id, first, None).value;
      && InsertObject(c', id, second, fault).Failure?
      && InsertObject(c', id, second, None) == Failure(DuplicateKey(id))
      && LoadObject(c', id, None) == Success(Some(first))
  {
  }

  /** The stored ids that begin with `prefix` (the `^prefix` id query). */
  function Matches(ids: set<string>, prefix: string): set<string>
  {
    set id | id in ids && StartsWith(id, prefix)
  }

  /** At most this many documents are fetched when resolving a prefix. */
  const ScanLimit: nat := 2

  /** `findHash`: resolve a hash prefix to the one stored id that begins
      with it. An invalid prefix is refused before the backend is asked; a
      backend failure (`fault`) is passed through; otherwise the scan stops
      after `ScanLimit` matches and the number found decides the answer.
      The scan order is the backend's and is left open. */
  method FindHash(ids: set<string>, prefix: string, fault: Option<string>) returns (r: Result<string, StoreError>)
    ensures !MatchesHashPattern(prefix) ==> r == Failure(HashInvalid(prefix))
    ensures MatchesHashPattern(prefix) && fault.Some? ==> r == Failure(Driver(fault.value))
    ensures MatchesHashPattern(prefix) && fault.None? ==>
      && (r == Failure(HashNotFound(prefix)) <==> |Matches(ids, prefix)| == 0)
      && (r == Failure(HashNotUnique(prefix)) <==> |Matches(ids, prefix)| >= 2)
      && (r.Success? <==> |Matches(ids, prefix)| == 1)
    ensures r.Success? ==> r.value in ids && StartsWith(r.value, prefix) && Matches(ids, prefix) == {r.value}
  {
    if !MatchesHashPattern(prefix) {
      return Failure(HashInvalid(prefix));
    }
    if fault.Some? {
      return Failure(Driver(fault.value));
    }
    var docs := ScanPrefix(ids, prefix);
    if |docs| == 0 {
      r := Failure(HashNotFound(prefix));
    } else if |docs| != 1 {
      r := Failure(HashNotUnique(prefix));
    } else {
      r := Success(docs[0]);
    }
  }

  /** The bounded cursor behind `findHash`: up to `ScanLimit` distinct
      stored ids that begin with `prefix`, in the backend's order. Fewer
      than `ScanLimit` documents means the cursor was exhausted. */
  method ScanPrefix(ids: set<string>, prefix: string) returns (docs: seq<string>)
    ensures |docs| <= ScanLimit
    ensures forall k :: 0 <= k < |docs| ==> docs[k] in Matches(ids, prefix)
    ensures |docs| < ScanLimit ==> |Matches(ids, prefix)| == |docs|
    ensures |docs| == ScanLimit ==> |Matches(ids, prefix)| >= ScanLimit
    ensures |docs| == 1 ==> Matches(ids, prefix) == {docs[0]}
    ensures forall j, k :: 0 <= j < k < |docs| ==> docs[j] != docs[k]
  {
    docs := [];
    var rest := ids;
    ghost var seen: set<string> := {};
    while |docs| < ScanLimit && rest != {}
      invariant rest <= ids
      invariant seen !! rest
      invariant Matches(ids, prefix) == seen + Matches(rest, prefix)
      invariant |seen| == |docs| <= ScanLimit
      invariant forall k :: 0 <= k < |docs| ==> docs[k] in seen
      invariant forall j, k :: 0 <= j < k < |docs| ==> docs[j] != docs[k]
      decreases |rest|
    {
      var id :| id in rest;
      ScanStep(ids, prefix, seen, rest, id);
      if StartsWith(id, prefix) {
        docs := docs + [id];
        seen := seen + {id};
      }
      rest := rest - {id};
    }
    ScanDone(ids, prefix, seen, rest, |docs| < ScanLimit);
    if |docs| == 1 {
      SingletonOfOne(seen, docs[0]);
    }
  }

  /** One step of the cursor keeps the matches split between those seen
      and those still ahead. */
  lemma ScanStep(ids: set<string>, prefix: string, seen: set<string>, rest: set<string>, id: string)
    requires id in rest && seen !! rest
    requires Matches(ids, prefix) == seen + Matches(rest, prefix)
    ensures var seen' := if StartsWith(id, prefix) then seen + {id} else seen;
      && seen' !! rest - {id}
      && Matches(ids, prefix) == seen' + Matches(rest - {id}, prefix)
      && |seen'| == if StartsWith(id, prefix) then |seen| + 1 else |seen|
  {
    MatchesRemove(rest, id, prefix);
  }

  /** When the cursor stops, the matches seen are all of them if it was
      exhausted, and some of them in any case. */
  lemma ScanDone(ids: set<string>, prefix: string, seen: set<string>, rest: set<string>, exhausted: bool)
    requires Matches(ids, prefix) == seen + Matches(rest, prefix)
    requires exhausted ==> rest == {}
    ensures |seen| <= |Matches(ids, prefix)|
    ensures exhausted ==> seen == Matches(ids, prefix)
  {
    SubsetCardinality(seen, Matches(ids, prefix));
    if exhausted {
      assert Matches(rest, prefix) == {};
    }
  }

  lemma SingletonOfOne<T>(s: set<T>, x: T)
    requires x in s && |s| == 1
    ensures s == {x}
  {
    if s != {x} {
      var y :| y in s && y != x;
      SubsetCardinality({x, y}, s);
    }
  }

  lemma MatchesRemove(rest: set<string>, id: string, prefix: string)
    requires id in rest
    ensures Matches(rest, prefix) ==
      Matches(rest - {id}, prefix) + (if StartsWith(id, prefix) then {id} else {})
  {
  }

  lemma SubsetCardinality<T>(a: set<T>, b: set<T>)
    requires a <= b
    ensures |a| <= |b|
  {
    assert b == a + (b - a);
  }

  /** A full stored hash resolves to itself iff no other stored id extends it. */
  lemma FullHashResolvesToItself(ids: set<string>, id: string)
    requires id in ids
    ensures |Matches(ids, id)| == 1 <==> forall other :: other in ids && other != id ==> !StartsWith(other, id)
  {
    assert id in Matches(ids, id);
    if forall other :: other in ids && other != id ==> !StartsWith(other, id) {
      assert Matches(ids, id) == {id};
    } else {
      var other :| other in ids && other != id && StartsWith(other, id);
      assert {id, other} <= Matches(ids, id);
      SubsetCardinality({id, other}, Matches(ids, id));
    }
  }
}
