/** The first stage of `langchain app add`: the parsed dependencies are grouped
    by the repository and ref they come from, so that each repository is fetched
    once. The Python dict used for this keeps insertion order; here that order is
    an explicit list of keys beside a map. */
module AppGroups {
  import opened Wrappers
  import opened Sequences

  /** One requested dependency, as `parse_dependencies` returns it. */
  datatype DependencySource = DependencySource(
    git: string,
    ref: Option<string>,
    subdirectory: Option<string>,
    apiPath: Option<string>)

  /** The grouping key `(dep["git"], dep["ref"])`. */
  datatype RepoKey = RepoKey(git: string, ref: Option<string>)

  function KeyOf(dep: DependencySource): RepoKey
  {
    RepoKey(dep.git, dep.ref)
  }

  /** Python truthiness of an optional string: neither `None` nor empty. */
  predicate Truthy(o: Option<string>)
  {
    o.Some? && o.value != ""
  }

  /** The distinct keys of `deps`, in the order each is first seen. */
  function FirstSeenKeys(deps: seq<DependencySource>): (keys: seq<RepoKey>)
    ensures |keys| <= |deps|
  {
    if deps == [] then []
    else
      var prev := FirstSeenKeys(deps[..|deps| - 1]);
      var last := deps[|deps| - 1];
      if KeyOf(last) in prev then prev else prev + [KeyOf(last)]
  }

  /** No key is listed twice. */
  lemma {:induction false} FirstSeenKeysDistinct(deps: seq<DependencySource>)
    ensures forall i, j :: 0 <= i < j < |FirstSeenKeys(deps)| ==> FirstSeenKeys(deps)[i] != FirstSeenKeys(deps)[j]
  {
    if deps != [] {
      var prev, k := FirstSeenKeys(deps[..|deps| - 1]), KeyOf(deps[|deps| - 1]);
      FirstSeenKeysDistinct(deps[..|deps| - 1]);
      assert forall i, j :: 0 <= i < j < |prev| ==> prev[i] != prev[j];
      if k !in prev {
        var keys := prev + [k];
        assert keys == FirstSeenKeys(deps);
        forall i, j | 0 <= i < j < |keys| ensures keys[i] != keys[j] {
          assert keys[i] == prev[i] && prev[i] in prev;
          if j < |prev| {
            assert keys[j] == prev[j];
          } else {
            assert keys[j] == k;
          }
        }
      } else {
        assert prev == FirstSeenKeys(deps);
      }
    }
  }

  /** The key of every dependency is listed. */
  lemma {:induction false} FirstSeenKeysCover(deps: seq<DependencySource>)
    ensures forall d :: d in deps ==> KeyOf(d) in FirstSeenKeys(deps)
  {
    if deps != [] {
      var init, last := deps[..|deps| - 1], deps[|deps| - 1];
      FirstSeenKeysCover(init);
      assert deps == init + [last];
      assert forall d :: d in deps ==> d in init || d == last;
    }
  }

  /** The dependencies of `deps` whose key is `k`, in input order. */
  function WithKey(deps: seq<DependencySource>, k: RepoKey): seq<DependencySource>
  {
    if deps == [] then []
    else WithKey(deps[..|deps| - 1], k) + (if KeyOf(deps[|deps| - 1]) == k then [deps[|deps| - 1]] else [])
  }

  /** A group holds exactly the input dependencies with its key. */
  lemma {:induction false} WithKeyMembers(deps: seq<DependencySource>, k: RepoKey)
    ensures forall d :: d in WithKey(deps, k) <==> d in deps && KeyOf(d) == k
  {
    if deps != [] {
      var init := deps[..|deps| - 1];
      WithKeyMembers(init, k);
      assert deps == init + [deps[|deps| - 1]];
    }
  }

  /** The content of the `grouped` dict after the loop. */
  function GroupMap(deps: seq<DependencySource>): map<RepoKey, seq<DependencySource>>
  {
    map k | k in FirstSeenKeys(deps) :: WithKey(deps, k)
  }

  /** The groups' members one group after another, in key order. */
  function Flatten(keys: seq<RepoKey>, grouped: map<RepoKey, seq<DependencySource>>): seq<DependencySource>
    requires forall k :: k in keys ==> k in grouped
  {
    if keys == [] then [] else Flatten(keys[..|keys| - 1], grouped) + grouped[keys[|keys| - 1]]
  }

  lemma WithKeySnoc(deps: seq<DependencySource>, d: DependencySource, k: RepoKey)
    ensures WithKey(deps + [d], k) == WithKey(deps, k) + (if KeyOf(d) == k then [d] else [])
  {
    assert (deps + [d])[..|deps|] == deps;
  }

  lemma FirstSeenSnoc(deps: seq<DependencySource>, d: DependencySource)
    ensures FirstSeenKeys(deps + [d])
      == if KeyOf(d) in FirstSeenKeys(deps) then FirstSeenKeys(deps) else FirstSeenKeys(deps) + [KeyOf(d)]
  {
    assert (deps + [d])[..|deps|] == deps;
  }

  /** One more dependency adds its key to the dict if it is new, and appends the
      dependency to that key's list; every other entry is unchanged. */
  lemma GroupMapSnoc(deps: seq<DependencySource>, d: DependencySource)
    ensures GroupMap(deps + [d]) == GroupMap(deps)[KeyOf(d) := WithKey(deps, KeyOf(d)) + [d]]
  {
    FirstSeenSnoc(deps, d);
    var before, after := GroupMap(deps), GroupMap(deps + [d]);
    var expected := before[KeyOf(d) := WithKey(deps, KeyOf(d)) + [d]];
    forall k | k in after
      ensures k in expected && after[k] == expected[k]
    {
      WithKeySnoc(deps, d, k);
    }
    assert after.Keys == expected.Keys;
  }

  /** The loop `for dep in parsed_deps: grouped[(git, ref)] = grouped.get((git, ref), []) + [dep]`,
      with `order` the dict's insertion order. */
  method GroupByRepo(deps: seq<DependencySource>)
    returns (order: seq<RepoKey>, grouped: map<RepoKey, seq<DependencySource>>)
    ensures order == FirstSeenKeys(deps)
    ensures grouped == GroupMap(deps)
  {
    order, grouped := [], map[];
    for n := 0 to |deps|
      invariant order == FirstSeenKeys(deps[..n])
      invariant grouped == GroupMap(deps[..n])
    {
      var dep := deps[n];
      var keyTup := KeyOf(dep);
      ghost var seen := deps[..n];
      assert deps[..n + 1] == seen + [dep];
      var lst := if keyTup in grouped then grouped[keyTup] else [];
      assert lst == WithKey(seen, keyTup) by {
        if keyTup !in grouped {
          NoMembersBeforeFirstSeen(seen, keyTup);
        }
      }
      lst := lst + [dep];
      if keyTup !in grouped {
        order := order + [keyTup];
      }
      grouped := grouped[keyTup := lst];
      FirstSeenSnoc(seen, dep);
      GroupMapSnoc(seen, dep);
    }
    assert deps[..|deps|] == deps;
  }

  /** Every key the loop meets is in the dict from then on; a key not yet met
      has no members. */
  lemma NoMembersBeforeFirstSeen(deps: seq<DependencySource>, k: RepoKey)
    requires k !in FirstSeenKeys(deps)
    ensures WithKey(deps, k) == []
  {
    WithKeyMembers(deps, k);
  }

  /** Every listed key belongs to some dependency of the input. */
  lemma {:induction false} FirstSeenKeysOccur(deps: seq<DependencySource>, k: RepoKey)
    requires k in FirstSeenKeys(deps)
    ensures exists m :: 0 <= m < |deps| && KeyOf(deps[m]) == k
  {
    var init := deps[..|deps| - 1];
    if k in FirstSeenKeys(init) {
      FirstSeenKeysOccur(init, k);
      var m :| 0 <= m < |init| && KeyOf(init[m]) == k;
      assert deps[m] == init[m];
    } else {
      assert KeyOf(deps[|deps| - 1]) == k;
    }
  }

  /** Groups listed by prefix keep the prefix: the key list only grows at its end. */
  lemma {:induction false} FirstSeenPrefix(deps: seq<DependencySource>, n: nat)
    requires n <= |deps|
    ensures FirstSeenKeys(deps[..n]) <= FirstSeenKeys(deps)
  {
    if n < |deps| {
      var init := deps[..|deps| - 1];
      FirstSeenPrefix(init, n);
      assert init[..n] == deps[..n];
      var pre, mid, all := FirstSeenKeys(deps[..n]), FirstSeenKeys(init), FirstSeenKeys(deps);
      assert mid <= all;
      assert pre == mid[..|pre|] == all[..|pre|];
    } else {
      assert deps[..n] == deps;
    }
  }

  /** Keys are in first-seen order: whenever key j occurs in the input, key i < j
      has already occurred before it. */
  lemma FirstSeenOrder(deps: seq<DependencySource>, i: nat, j: nat, n: nat)
    requires i < j < |FirstSeenKeys(deps)|
    requires n < |deps| && KeyOf(deps[n]) == FirstSeenKeys(deps)[j]
    ensures exists m :: 0 <= m < n && KeyOf(deps[m]) == FirstSeenKeys(deps)[i]
  {
    var keys := FirstSeenKeys(deps);
    var pre, post := FirstSeenKeys(deps[..n]), FirstSeenKeys(deps[..n + 1]);
    FirstSeenPrefix(deps, n);
    FirstSeenPrefix(deps, n + 1);
    PrefixSnoc(deps, n);
    FirstSeenSnoc(deps[..n], deps[n]);
    assert |post| <= |pre| + 1;
    // Key j is met at position n, so it is listed in `post`, at position j as keys are distinct.
    FirstSeenKeysCover(deps[..n + 1]);
    assert deps[n] in deps[..n + 1];
    var t :| 0 <= t < |post| && post[t] == keys[j];
    assert keys[t] == post[t];
    FirstSeenKeysDistinct(deps);
    assert t == j;
    assert pre[i] == keys[i];
    FirstSeenKeysOccur(deps[..n], keys[i]);
    var m :| 0 <= m < n && KeyOf(deps[..n][m]) == keys[i];
    assert deps[m] == deps[..n][m];
  }

  /** Adding one dependency adds it once to the flattened groups (the keys being distinct). */
  lemma {:induction false} FlattenSnoc(keys: seq<RepoKey>, deps: seq<DependencySource>, d: DependencySource)
    requires forall i, j :: 0 <= i < j < |keys| ==> keys[i] != keys[j]
    ensures multiset(FlattenBy(keys, deps + [d]))
      == multiset(FlattenBy(keys, deps)) + (if KeyOf(d) in keys then multiset{d} else multiset{})
  {
    if keys != [] {
      var init := keys[..|keys| - 1];
      FlattenSnoc(init, deps, d);
      assert (deps + [d])[..|deps|] == deps;
      assert KeyOf(d) in keys <==> KeyOf(d) in init || KeyOf(d) == keys[|keys| - 1];
    }
  }

  /** Flatten with each group computed from the input (no map in between). */
  function FlattenBy(keys: seq<RepoKey>, deps: seq<DependencySource>): seq<DependencySource>
  {
    if keys == [] then [] else FlattenBy(keys[..|keys| - 1], deps) + WithKey(deps, keys[|keys| - 1])
  }

  /** A dependency with a new key opens a group that holds just itself. */
  lemma PartitionStep(init: seq<DependencySource>, d: DependencySource)
    ensures var keys := FirstSeenKeys(init);
      multiset(FlattenBy(FirstSeenKeys(init + [d]), init + [d]))
        == multiset(FlattenBy(keys, init + [d])) + (if KeyOf(d) in keys then multiset{} else multiset{d})
  {
    var keys, k := FirstSeenKeys(init), KeyOf(d);
    FirstSeenSnoc(init, d);
    if k !in keys {
      assert (keys + [k])[..|keys|] == keys;
      NoMembersBeforeFirstSeen(init, k);
      WithKeySnoc(init, d, k);
    }
  }

  /** The groups partition the input: together they hold every dependency, as many
      times as the input does. */
  lemma {:induction false} GroupsPartitionBy(deps: seq<DependencySource>)
    ensures multiset(FlattenBy(FirstSeenKeys(deps), deps)) == multiset(deps)
  {
    if deps != [] {
      var init, d := deps[..|deps| - 1], deps[|deps| - 1];
      assert deps == init + [d];
      FirstSeenKeysDistinct(init);
      GroupsPartitionBy(init);
      FlattenSnoc(FirstSeenKeys(init), init, d);
      PartitionStep(init, d);
    }
  }

  lemma {:induction false} FlattenGroupMap(keys: seq<RepoKey>, deps: seq<DependencySource>)
    requires forall k :: k in keys ==> k in FirstSeenKeys(deps)
    ensures Flatten(keys, GroupMap(deps)) == FlattenBy(keys, deps)
  {
    if keys != [] {
      FlattenGroupMap(keys[..|keys| - 1], deps);
    }
  }

  /** The grouping neither loses nor duplicates a dependency: the groups, in key
      order, are a rearrangement of the input, and their sizes sum to its length. */
  lemma GroupsPartition(deps: seq<DependencySource>)
    ensures multiset(Flatten(FirstSeenKeys(deps), GroupMap(deps))) == multiset(deps)
    ensures |Flatten(FirstSeenKeys(deps), GroupMap(deps))| == |deps|
  {
    FlattenGroupMap(FirstSeenKeys(deps), deps);
    GroupsPartitionBy(deps);
    assert |multiset(Flatten(FirstSeenKeys(deps), GroupMap(deps)))| == |multiset(deps)|;
  }

}
