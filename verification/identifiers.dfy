/** Identifier syntax of the store: project names, object hashes and branch
    names, and the listing of project names from backend collection names. */
module Identifiers {

  /** One character of the class `[0-9a-zA-Z_]` shared by all three patterns. */
  predicate IsWordChar(c: char)
  {
    ('0' <= c <= '9') || ('a' <= c <= 'z') || ('A' <= c <= 'Z') || c == '_'
  }

  predicate AllWordChars(s: string)
  {
    forall i :: 0 <= i < |s| ==> IsWordChar(s[i])
  }

  /** `^[0-9a-zA-Z_]*$`: the project pattern (the empty name matches). */
  predicate MatchesProjectPattern(s: string)
  {
    AllWordChars(s)
  }

  /** `^#[0-9a-zA-Z_]*$`: the object hash pattern. */
  predicate MatchesHashPattern(s: string)
  {
    |s| >= 1 && s[0] == '#' && AllWordChars(s[1..])
  }

  /** `^\*[0-9a-zA-Z_]*$`: the branch name pattern. */
  predicate MatchesBranchPattern(s: string)
  {
    |s| >= 1 && s[0] == '*' && AllWordChars(s[1..])
  }

  /** The prefix reserved for the backend's own collections. */
  const SystemPrefix: string := "system."

  predicate StartsWith(s: string, prefix: string)
  {
    |prefix| <= |s| && s[..|prefix|] == prefix
  }

  /** JavaScript `s.substr(start, length)` for in-range `start`: the result is
      cut short at the end of the string. */
  function Substr(s: string, start: nat, length: nat): (r: string)
    requires start <= |s|
    ensures |r| <= length
    ensures StartsWith(s[start..], r)
    ensures start + length <= |s| ==> |r| == length
    ensures start + length > |s| ==> r == s[start..]
  {
    if start + length <= |s| then s[start..start + length] else s[start..]
  }

  /** `_validProjectName`: the first seven characters are not "system." and
      the whole name matches the project pattern. */
  predicate ValidProjectName(s: string)
  {
    Substr(s, 0, 7) != SystemPrefix && MatchesProjectPattern(s)
  }

  /** A valid project name is one that does not start with "system." and
      whose every character is in `[0-9a-zA-Z_]`. */
  lemma ValidProjectNameCharacterization(s: string)
    ensures ValidProjectName(s) <==> !StartsWith(s, SystemPrefix) && AllWordChars(s)
  {
    var cut := Substr(s, 0, 7);
    if |s| >= 7 {
      assert cut == s[..7];
    } else {
      assert !StartsWith(s, SystemPrefix);
      assert |cut| < 7;
    }
  }

  /** The reserved-prefix test is redundant: the pattern already refuses the
      `.` at position six of "system.". */
  lemma PatternExcludesSystemPrefix(s: string)
    ensures MatchesProjectPattern(s) ==> !StartsWith(s, SystemPrefix)
    ensures ValidProjectName(s) <==> MatchesProjectPattern(s)
  {
    ValidProjectNameCharacterization(s);
    if StartsWith(s, SystemPrefix) {
      assert s[6] == SystemPrefix[6] == '.';
      assert !IsWordChar(s[6]);
    }
  }

  /** No identifier of one kind is an identifier of another: the sigils keep
      project names, hashes and branch names apart. */
  lemma PatternsAreDisjoint(s: string)
    ensures !(MatchesHashPattern(s) && MatchesBranchPattern(s))
    ensures MatchesHashPattern(s) ==> !MatchesProjectPattern(s)
    ensures MatchesBranchPattern(s) ==> !MatchesProjectPattern(s)
  {
    if MatchesHashPattern(s) {
      assert !IsWordChar(s[0]);
    }
    if MatchesBranchPattern(s) {
      assert !IsWordChar(s[0]);
    }
  }

  /** JavaScript `s.indexOf(".")`: the position of the first dot, or -1. */
  function IndexOfDot(s: string): (r: int)
    ensures -1 <= r < |s|
    ensures r == -1 ==> forall i :: 0 <= i < |s| ==> s[i] != '.'
    ensures r >= 0 ==> s[r] == '.' && forall i :: 0 <= i < r ==> s[i] != '.'
  {
    if |s| == 0 then -1
    else if s[0] == '.' then 0
    else
      var k := IndexOfDot(s[1..]);
      if k == -1 then -1 else k + 1
  }

  /** The project part of a backend collection name: everything after the
      first dot, or the whole name when it has no dot. */
  function ProjectSuffix(collection: string): string
  {
    collection[IndexOfDot(collection) + 1..]
  }

  /** The suffix is the whole name when it has no dot; otherwise the name is
      some dot-free text, a dot, and then the suffix. */
  lemma ProjectSuffixSplit(collection: string)
    ensures '.' !in collection ==> ProjectSuffix(collection) == collection
    ensures '.' in collection ==>
      var n := ProjectSuffix(collection);
      var k := |collection| - |n| - 1;
      && 0 <= k
      && collection[k] == '.'
      && '.' !in collection[..k]
      && collection == collection[..k] + "." + n
  {
    var p := IndexOfDot(collection);
    if '.' in collection {
      var i :| 0 <= i < |collection| && collection[i] == '.';
      assert p != -1;
      assert collection == collection[..p] + "." + collection[p + 1..];
    }
  }

  /** Reference definition of `getProjectNames`: the valid suffixes, in
      collection order. */
  function ValidSuffixes(collections: seq<string>): seq<string>
  {
    if |collections| == 0 then []
    else
      var rest := ValidSuffixes(collections[..|collections| - 1]);
      var n := ProjectSuffix(collections[|collections| - 1]);
      if ValidProjectName(n) then rest + [n] else rest
  }

  /** The loop of `getProjectNames` over the collection names the backend
      listed. */
  method ListProjectNames(collections: seq<string>) returns (names: seq<string>)
    ensures names == ValidSuffixes(collections)
  {
    names := [];
    var i := 0;
    while i < |collections|
      invariant 0 <= i <= |collections|
      invariant names == ValidSuffixes(collections[..i])
    {
      assert collections[..i + 1][..i] == collections[..i];
      var n := ProjectSuffix(collections[i]);
      if ValidProjectName(n) {
        names := names + [n];
      }
      i := i + 1;
    }
    assert collections[..i] == collections;
  }

  /** Every listed name is valid, and there are at most as many names as
      collections. */
  lemma {:induction false} ValidSuffixesAreValid(collections: seq<string>)
    ensures forall j :: 0 <= j < |ValidSuffixes(collections)| ==> ValidProjectName(ValidSuffixes(collections)[j])
    ensures |ValidSuffixes(collections)| <= |collections|
    decreases |collections|
  {
    if |collections| > 0 {
      ValidSuffixesAreValid(collections[..|collections| - 1]);
    }
  }

  /** A name is listed iff some collection's suffix is that name and valid. */
  lemma {:induction false} ValidSuffixesMembership(collections: seq<string>, n: string)
    ensures n in ValidSuffixes(collections) <==>
      ValidProjectName(n) &&
      exists i :: 0 <= i < |collections| && ProjectSuffix(collections[i]) == n
    decreases |collections|
  {
    if |collections| > 0 {
      var init := collections[..|collections| - 1];
      ValidSuffixesMembership(init, n);
      if n in ValidSuffixes(collections) && n !in ValidSuffixes(init) {
        assert ProjectSuffix(collections[|collections| - 1]) == n;
      }
      if ValidProjectName(n) && (exists i :: 0 <= i < |collections| && ProjectSuffix(collections[i]) == n) {
        var i :| 0 <= i < |collections| && ProjectSuffix(collections[i]) == n;
        if i < |collections| - 1 {
          assert init[i] == collections[i];
        }
      }
      forall i | 0 <= i < |init|
        ensures init[i] == collections[i]
      {
      }
    }
  }

  /** The positions, in the collection list, of the listed names. */
  function ValidPositions(collections: seq<string>): (pos: seq<nat>)
    ensures |pos| == |ValidSuffixes(collections)|
    ensures forall j :: 0 <= j < |pos| ==> pos[j] < |collections|
  {
    if |collections| == 0 then []
    else
      var last := |collections| - 1;
      var rest := ValidPositions(collections[..last]);
      if ValidProjectName(ProjectSuffix(collections[last])) then rest + [last] else rest
  }

  /** Listing preserves collection order: the j-th listed name is the suffix
      of the collection at the j-th position, and positions increase. */
  lemma {:induction false} ValidSuffixesInOrder(collections: seq<string>)
    ensures var pos := ValidPositions(collections);
      (forall j :: 0 <= j < |pos| ==>
         ProjectSuffix(collections[pos[j]]) == ValidSuffixes(collections)[j])
      && (forall j, k :: 0 <= j < k < |pos| ==> pos[j] < pos[k])
    decreases |collections|
  {
    if |collections| > 0 {
      var last := |collections| - 1;
      var init := collections[..last];
      ValidSuffixesInOrder(init);
      var pos := ValidPositions(init);
      forall j | 0 <= j < |pos|
        ensures ProjectSuffix(collections[pos[j]]) == ValidSuffixes(init)[j]
      {
        assert collections[pos[j]] == init[pos[j]];
      }
    }
  }
}
