/**
 * What one call of `InitializeReferences` does to a project content's
 * reference state, as pure functions, and the properties of that step:
 * partition, order, monotonicity, idempotence and the change event.
 */
module ReferenceResolution {
  import opened DomTypes

  /** The registry as seen by one call: the contents it can find, by name. */
  type Lookup = map<AssemblyName, ProjectContentHandle>

  /**
   * The reference state: whether the first call happened, the names still
   * missing (None is the null list, never Some([]) once valid), and the
   * referenced contents in the order they were appended.
   */
  datatype References = References(
    initialized: bool,
    missing: Option<seq<AssemblyName>>,
    contents: seq<ProjectContentHandle>)

  /** The state after a call, and whether the call raised the change event. */
  datatype Outcome = Outcome(state: References, raised: bool)

  /** The names of `names` the registry cannot find, in their order. */
  function StillMissing(names: seq<AssemblyName>, lookup: Lookup): seq<AssemblyName>
    decreases |names|
  {
    if names == [] then []
    else
      var last := names[|names| - 1];
      StillMissing(names[..|names| - 1], lookup) + (if last in lookup then [] else [last])
  }

  /** The contents the registry finds for `names`, in the order of the names. */
  function Found(names: seq<AssemblyName>, lookup: Lookup): seq<ProjectContentHandle>
    decreases |names|
  {
    if names == [] then []
    else
      var last := names[|names| - 1];
      Found(names[..|names| - 1], lookup) + (if last in lookup then [lookup[last]] else [])
  }

  /** The missing-name list as a nullable list: an empty list is null. */
  function AsMissingList(names: seq<AssemblyName>): Option<seq<AssemblyName>> {
    if names == [] then None else Some(names)
  }

  /** Appending names to a nullable list, creating it on the first append. */
  function AppendMissing(list: Option<seq<AssemblyName>>, names: seq<AssemblyName>): Option<seq<AssemblyName>> {
    match list
    case None => AsMissingList(names)
    case Some(existing) => Some(existing + names)
  }

  /** The names of a nullable list; null has none. */
  function MissingNames(s: References): seq<AssemblyName> {
    if s.missing.Some? then s.missing.value else []
  }

  /**
   * One call of `InitializeReferences` with `declared` the assembly's
   * referenced names: the first call queries every declared name, later
   * calls only the missing ones.
   */
  function Resolve(declared: seq<AssemblyName>, s: References, lookup: Lookup): (r: Outcome)
    ensures r.state.initialized
    ensures s.contents <= r.state.contents
    ensures s.initialized && s.missing.None? ==> r == Outcome(s, false)
  {
    if s.initialized then
      if s.missing.Some? then
        var names := s.missing.value;
        var found := Found(names, lookup);
        Outcome(References(true, AsMissingList(StillMissing(names, lookup)), s.contents + found), found != [])
      else Outcome(s, false)
    else
      var found := Found(declared, lookup);
      Outcome(References(true, AppendMissing(s.missing, StillMissing(declared, lookup)), s.contents + found), found != [])
  }

  /** The state before any call, and the invariant every call keeps. */
  ghost predicate Valid(declared: seq<AssemblyName>, s: References) {
    && s.missing != Some([])
    && (!s.initialized ==> s.missing == None)
    && forall n :: n in MissingNames(s) ==> n in declared
  }

  /** `a` is `b` with some elements deleted, the rest in their order. */
  ghost predicate IsSubsequence(a: seq<AssemblyName>, b: seq<AssemblyName>)
    decreases |b|
  {
    if a == [] then true
    else if b == [] then false
    else
      (a[|a| - 1] == b[|b| - 1] && IsSubsequence(a[..|a| - 1], b[..|b| - 1]))
      || IsSubsequence(a, b[..|b| - 1])
  }

  /** Querying one more name extends the still-missing names or the found contents by it. */
  lemma QueryOneMore(names: seq<AssemblyName>, k: nat, lookup: Lookup)
    requires k < |names|
    ensures StillMissing(names[..k + 1], lookup) ==
      StillMissing(names[..k], lookup) + (if names[k] in lookup then [] else [names[k]])
    ensures Found(names[..k + 1], lookup) ==
      Found(names[..k], lookup) + (if names[k] in lookup then [lookup[names[k]]] else [])
  {
    assert names[..k + 1][..k] == names[..k];
  }

  /**
   * Retrying the j-th original name on a list holding the still-missing names
   * of the first j, then the rest: the name sits at index i, and it is removed
   * exactly when it resolves.
   */
  lemma RetryOneMore(names: seq<AssemblyName>, j: nat, lookup: Lookup, list: seq<AssemblyName>)
    requires j < |names|
    requires list == StillMissing(names[..j], lookup) + names[j..]
    ensures var i := |StillMissing(names[..j], lookup)|;
      && i < |list| && list[i] == names[j]
      && (names[j] in lookup ==>
            list[..i] + list[i + 1..] == StillMissing(names[..j + 1], lookup) + names[j + 1..]
            && |StillMissing(names[..j + 1], lookup)| == i)
      && (names[j] !in lookup ==>
            list == StillMissing(names[..j + 1], lookup) + names[j + 1..]
            && |StillMissing(names[..j + 1], lookup)| == i + 1)
  {
    QueryOneMore(names, j, lookup);
    var done := StillMissing(names[..j], lookup);
    assert names[j..] == [names[j]] + names[j + 1..];
    assert list[|done|] == names[j];
    if names[j] in lookup {
      assert list[..|done|] == done;
      assert list[|done| + 1..] == names[j + 1..];
    } else {
      assert StillMissing(names[..j + 1], lookup) == done + [names[j]];
    }
  }

  /** A name is still missing exactly when it was queried and the registry lacks it. */
  lemma {:induction false} StillMissingMembers(names: seq<AssemblyName>, lookup: Lookup)
    ensures forall n :: n in StillMissing(names, lookup) <==> n in names && n !in lookup
    decreases |names|
  {
    if names != [] {
      var prefix := names[..|names| - 1];
      StillMissingMembers(prefix, lookup);
      assert names == prefix + [names[|names| - 1]];
    }
  }

  /** Every queried name is either found (one content each) or still missing. */
  lemma {:induction false} PartitionSizes(names: seq<AssemblyName>, lookup: Lookup)
    ensures |Found(names, lookup)| + |StillMissing(names, lookup)| == |names|
    ensures Found(names, lookup) == [] <==> forall i :: 0 <= i < |names| ==> names[i] !in lookup
    decreases |names|
  {
    if names != [] {
      var prefix := names[..|names| - 1];
      PartitionSizes(prefix, lookup);
      assert forall i :: 0 <= i < |prefix| ==> prefix[i] == names[i];
    }
  }

  /** The contents found are the registry's contents for the queried names. */
  lemma {:induction false} FoundFromRegistry(names: seq<AssemblyName>, lookup: Lookup)
    ensures forall c :: c in Found(names, lookup) ==> exists n :: n in names && n in lookup && lookup[n] == c
    decreases |names|
  {
    if names != [] {
      var prefix := names[..|names| - 1];
      FoundFromRegistry(prefix, lookup);
      assert forall n :: n in prefix ==> n in names;
    }
  }

  /** Every queried name the registry can find has its content among those found. */
  lemma {:induction false} FoundIncludesResolvable(names: seq<AssemblyName>, lookup: Lookup)
    ensures forall n :: n in names && n in lookup ==> lookup[n] in Found(names, lookup)
    decreases |names|
  {
    if names != [] {
      var prefix := names[..|names| - 1];
      var last := names[|names| - 1];
      FoundIncludesResolvable(prefix, lookup);
      forall n | n in names && n in lookup
        ensures lookup[n] in Found(names, lookup)
      {
        if n != last {
          var k :| 0 <= k < |names| && names[k] == n;
          assert prefix[k] == n;
        }
      }
    }
  }

  /** The still-missing names keep their relative order. */
  lemma {:induction false} StillMissingIsSubsequence(names: seq<AssemblyName>, lookup: Lookup)
    ensures IsSubsequence(StillMissing(names, lookup), names)
    decreases |names|
  {
    if names != [] {
      var prefix := names[..|names| - 1];
      var last := names[|names| - 1];
      StillMissingIsSubsequence(prefix, lookup);
      var rest := StillMissing(prefix, lookup);
      if last in lookup {
        assert StillMissing(names, lookup) == rest;
        SubsequenceOfLonger(rest, prefix, last);
      } else {
        assert StillMissing(names, lookup) == rest + [last];
        assert (rest + [last])[..|rest|] == rest;
      }
    }
  }

  lemma {:induction false} SubsequenceOfLonger(a: seq<AssemblyName>, b: seq<AssemblyName>, x: AssemblyName)
    requires IsSubsequence(a, b)
    ensures IsSubsequence(a, b + [x])
  {
    assert (b + [x])[..|b|] == b;
  }

  /** Names none of which the registry can find are all still missing, and nothing is found. */
  lemma {:induction false} NothingResolvable(names: seq<AssemblyName>, lookup: Lookup)
    requires forall i :: 0 <= i < |names| ==> names[i] !in lookup
    ensures StillMissing(names, lookup) == names
    ensures Found(names, lookup) == []
    decreases |names|
  {
    if names != [] {
      var prefix := names[..|names| - 1];
      NothingResolvable(prefix, lookup);
      assert names == prefix + [names[|names| - 1]];
    }
  }

  /**
   * The first call splits the declared names: each one that resolves has its
   * content appended, in declaration order, and every other one is appended to
   * the missing list, which stays null when every name resolved.
   */
  lemma FirstCallPartitions(declared: seq<AssemblyName>, s: References, lookup: Lookup)
    requires !s.initialized && s.missing == None
    ensures var r := Resolve(declared, s, lookup).state;
      && r.initialized
      && r.contents == s.contents + Found(declared, lookup)
      && MissingNames(r) == StillMissing(declared, lookup)
      && (forall n :: n in declared ==> (n in lookup <==> n !in MissingNames(r)))
      && (r.missing == None <==> forall n :: n in declared ==> n in lookup)
      && |r.contents| - |s.contents| + |MissingNames(r)| == |declared|
  {
    StillMissingMembers(declared, lookup);
    PartitionSizes(declared, lookup);
  }

  /**
   * A later call queries only the missing names: it removes exactly those that
   * now resolve, keeps the rest in their order and nulls an emptied list.
   */
  lemma LaterCallRetriesMissing(declared: seq<AssemblyName>, s: References, lookup: Lookup)
    requires s.initialized
    ensures var r := Resolve(declared, s, lookup).state;
      && r.initialized
      && r.contents == s.contents + Found(MissingNames(s), lookup)
      && MissingNames(r) == StillMissing(MissingNames(s), lookup)
      && IsSubsequence(MissingNames(r), MissingNames(s))
      && (forall n :: n in MissingNames(r) <==> n in MissingNames(s) && n !in lookup)
      && r.missing != Some([])
  {
    StillMissingMembers(MissingNames(s), lookup);
    StillMissingIsSubsequence(MissingNames(s), lookup);
  }

  /**
   * The change event is raised exactly when the call appended at least one
   * content; contents are only ever appended.
   */
  lemma RaisedExactlyWhenAppended(declared: seq<AssemblyName>, s: References, lookup: Lookup)
    ensures var o := Resolve(declared, s, lookup);
      && |o.state.contents| >= |s.contents|
      && o.state.contents[..|s.contents|] == s.contents
      && (o.raised <==> |o.state.contents| > |s.contents|)
  {
  }

  /** Every call keeps the invariant of the reference state. */
  lemma ResolvePreservesValid(declared: seq<AssemblyName>, s: References, lookup: Lookup)
    requires Valid(declared, s)
    ensures Valid(declared, Resolve(declared, s, lookup).state)
  {
    StillMissingMembers(declared, lookup);
    StillMissingMembers(MissingNames(s), lookup);
  }

  /**
   * A repeated call when none of the still-missing assemblies has become
   * available changes nothing and raises no event.
   */
  lemma RepeatWithoutNewAssemblies(declared: seq<AssemblyName>, s: References, lookup: Lookup, later: Lookup)
    requires Valid(declared, s)
    requires var r := Resolve(declared, s, lookup).state;
      forall n :: n in MissingNames(r) ==> n !in later
    ensures var r := Resolve(declared, s, lookup).state;
      Resolve(declared, r, later) == Outcome(r, false)
  {
    var r := Resolve(declared, s, lookup).state;
    NothingResolvable(MissingNames(r), later);
  }

  /** With the same registry, a second call is a no-op. */
  lemma ResolveIdempotent(declared: seq<AssemblyName>, s: References, lookup: Lookup)
    requires Valid(declared, s)
    ensures var r := Resolve(declared, s, lookup).state;
      Resolve(declared, r, lookup) == Outcome(r, false)
  {
    var r := Resolve(declared, s, lookup).state;
    StillMissingMembers(declared, lookup);
    StillMissingMembers(MissingNames(s), lookup);
    RepeatWithoutNewAssemblies(declared, s, lookup, lookup);
  }

  /** The state after successive calls against successive registry snapshots. */
  function Run(declared: seq<AssemblyName>, s: References, lookups: seq<Lookup>): References
    decreases |lookups|
  {
    if lookups == [] then s
    else Run(declared, Resolve(declared, s, lookups[0]).state, lookups[1..])
  }

  /**
   * Over any number of calls the referenced contents only grow by appending,
   * and once initialized, a name that left the missing list never returns.
   */
  lemma {:induction false} RunIsMonotonic(declared: seq<AssemblyName>, s: References, lookups: seq<Lookup>)
    ensures var r := Run(declared, s, lookups);
      |r.contents| >= |s.contents| && r.contents[..|s.contents|] == s.contents
    ensures s.initialized ==>
      var r := Run(declared, s, lookups);
      r.initialized && forall n :: n in MissingNames(r) ==> n in MissingNames(s)
    decreases |lookups|
  {
    if lookups != [] {
      var next := Resolve(declared, s, lookups[0]).state;
      RaisedExactlyWhenAppended(declared, s, lookups[0]);
      RunIsMonotonic(declared, next, lookups[1..]);
      var r := Run(declared, s, lookups);
      assert r.contents[..|next.contents|][..|s.contents|] == r.contents[..|s.contents|];
      if s.initialized {
        LaterCallRetriesMissing(declared, s, lookups[0]);
      }
    }
  }
}
