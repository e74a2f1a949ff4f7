/** The install stage of `langchain app add`: one checkout per (repository, ref)
    group, then for each dependency of the group a manifest check, a mount name,
    an existence check on the destination and a copy.

    The filesystem is the set of paths that exist; the collaborators `update_repo`
    and `get_langserve_export` are functions given to the run. What the run echoes
    is kept as a trace of events (EchoLine renders each one as the text printed). */
module AppInstall {
  import opened Wrappers
  import opened Strings
  import opened AppGroups
  import opened Sequences

  type Path = string

  /** `base / name` */
  function JoinPath(base: Path, name: string): Path
  {
    base + "/" + name
  }

  /** `p` lies strictly inside directory `dir`. */
  predicate IsUnder(p: Path, dir: Path)
  {
    |dir| + 1 <= |p| && p[..|dir| + 1] == dir + "/"
  }

  lemma JoinPathIsUnder(base: Path, name: string)
    ensures IsUnder(JoinPath(base, name), base)
  {
    assert JoinPath(base, name)[..|base| + 1] == base + "/";
  }

  lemma IsUnderTransitive(p: Path, q: Path, dir: Path)
    requires IsUnder(p, q) && IsUnder(q, dir)
    ensures IsUnder(p, dir)
  {
    assert p[..|dir| + 1] == p[..|q| + 1][..|dir| + 1] == q[..|dir| + 1];
  }

  /** The `[tool.langserve]` record that `get_langserve_export` reads from a manifest. */
  datatype Export = Export(packageName: string, moduleName: string, attr: string)

  /** The checkout joined with `subdirectory` when that is set and non-empty, else the checkout. */
  function SourcePath(checkout: Path, dep: DependencySource): Path
  {
    if Truthy(dep.subdirectory) then JoinPath(checkout, dep.subdirectory.value) else checkout
  }

  function ManifestPath(source: Path): Path
  {
    JoinPath(source, "pyproject.toml")
  }

  /** `dep["api_path"] or langserve_export["package_name"]` */
  function MountName(dep: DependencySource, e: Export): string
  {
    if Truthy(dep.apiPath) then dep.apiPath.value else e.packageName
  }

  /** The folders that contain `p`: every prefix of `p` that a `/` of `p` ends. */
  function Ancestors(p: Path): (ancestors: set<Path>)
    ensures forall q :: q in ancestors <==> IsUnder(p, q)
  {
    var ancestors := set n | 0 <= n < |p| && p[n] == '/' :: p[..n];
    assert forall q :: IsUnder(p, q) ==> q in ancestors by {
      forall q | IsUnder(p, q) ensures q in ancestors {
        assert p[|q|] == p[..|q| + 1][|q|] == '/';
        assert q == p[..|q| + 1][..|q|] == p[..|q|];
      }
    }
    ancestors
  }

  /** Two folders that both contain `p` are nested one in the other (or equal). */
  lemma AncestorsNested(p: Path, q: Path, dir: Path)
    requires IsUnder(p, q) && IsUnder(p, dir)
    ensures q == dir || IsUnder(q, dir) || IsUnder(dir, q)
  {
    if |q| == |dir| {
      assert q == p[..|q| + 1][..|q|] == dir;
    } else if |q| > |dir| {
      assert q[..|dir| + 1] == p[..|q| + 1][..|dir| + 1] == p[..|dir| + 1];
    } else {
      assert dir[..|q| + 1] == p[..|dir| + 1][..|q| + 1] == p[..|q| + 1];
    }
  }

  /** `copy_repo(src, dst)`: `dst` comes to exist together with its missing parent
      folders, with a copy of everything under `src`. */
  function CopyTree(fs: set<Path>, src: Path, dst: Path): (fs': set<Path>)
    ensures fs <= fs' && dst in fs'
    ensures forall q :: IsUnder(dst, q) ==> q in fs'
    ensures forall p :: p in fs' && p !in fs ==> p == dst || IsUnder(p, dst) || IsUnder(dst, p)
  {
    var copies := set p | p in fs && IsUnder(p, src) :: dst + p[|src|..];
    assert forall q :: q in copies ==> IsUnder(q, dst) by {
      forall q | q in copies ensures IsUnder(q, dst) {
        var p :| p in fs && IsUnder(p, src) && q == dst + p[|src|..];
        assert p[|src|..][..1] == p[..|src| + 1][|src|..] == "/";
        assert q[..|dst| + 1] == dst + p[|src|..][..1];
      }
    }
    fs + Ancestors(dst) + {dst} + copies
  }

  /** What happened, in order; each event is one line echoed to the user. */
  datatype Event =
    | Fetching(key: RepoKey, count: nat, checkout: Path)
    | ManifestMissing(dep: DependencySource, manifest: Path)
    | AlreadyExists(dep: DependencySource, mount: string)
    | Downloaded(dep: DependencySource, mount: string)

  /** An optional string inside a Python f-string: `None` prints as "None". */
  function OptionText(o: Option<string>): string
  {
    if o.None? then "None" else o.value
  }

  /** The text `typer.echo` prints for an event. Its first character tells which
      event it reports: `A`dding, `C`ould not find, `F`older ... exists, or ` - Downloaded`. */
  function EchoLine(e: Event): (line: string)
    ensures |line| > 0
    ensures e.Fetching? <==> line[0] == 'A'
    ensures e.ManifestMissing? <==> line[0] == 'C'
    ensures e.AlreadyExists? <==> line[0] == 'F'
    ensures e.Downloaded? <==> line[0] == ' '
  {
    match e
    case Fetching(k, count, _) =>
      if count == 1 then "Adding " + k.git + "@" + OptionText(k.ref) + "..."
      else "Adding " + NatToString(count) + " templates from " + k.git + "@" + OptionText(k.ref)
    case ManifestMissing(_, manifest) => "Could not find " + manifest
    case AlreadyExists(_, mount) => "Folder " + mount + " already exists. Skipping..."
    case Downloaded(dep, mount) => " - Downloaded " + OptionText(dep.subdirectory) + " to " + mount
  }

  /** The state the install loop threads through: the filesystem, the two parallel
      result lists `installed_destination_paths` / `installed_exports`, and the trace. */
  datatype Run = Run(fs: set<Path>, installed: seq<Path>, exports: seq<Export>, trace: seq<Event>)

  /** One pass of the inner loop body, for one dependency of a group checked out at `checkout`. */
  function InstallDep(r: Run, packageDir: Path, checkout: Path, readExport: Path -> Export,
                      dep: DependencySource): (r': Run)
    ensures r.fs <= r'.fs
    ensures |r'.trace| == |r.trace| + 1 && r'.trace[..|r.trace|] == r.trace
    ensures !r'.trace[|r.trace|].Fetching? && r'.trace[|r.trace|].dep == dep
  {
    var source := SourcePath(checkout, dep);
    var manifest := ManifestPath(source);
    if manifest !in r.fs then
      r.(trace := r.trace + [ManifestMissing(dep, manifest)])
    else
      var e := readExport(manifest);
      var mount := MountName(dep, e);
      var dest := JoinPath(packageDir, mount);
      if dest in r.fs then
        r.(trace := r.trace + [AlreadyExists(dep, mount)])
      else
        Run(CopyTree(r.fs, source, dest), r.installed + [dest], r.exports + [e],
            r.trace + [Downloaded(dep, mount)])
  }

  /** The inner loop over the members of one group. */
  function InstallGroup(r: Run, packageDir: Path, checkout: Path, readExport: Path -> Export,
                        deps: seq<DependencySource>): Run
  {
    if deps == [] then r
    else InstallDep(InstallGroup(r, packageDir, checkout, readExport, deps[..|deps| - 1]),
                    packageDir, checkout, readExport, deps[|deps| - 1])
  }

  /** The outer loop over the groups: announce, fetch once, then the inner loop. */
  function InstallGroups(r: Run, packageDir: Path, keys: seq<RepoKey>,
                         grouped: map<RepoKey, seq<DependencySource>>,
                         updateRepo: RepoKey -> Path, readExport: Path -> Export): Run
    requires forall k :: k in keys ==> k in grouped
  {
    if keys == [] then r
    else
      var prev := InstallGroups(r, packageDir, keys[..|keys| - 1], grouped, updateRepo, readExport);
      var k := keys[|keys| - 1];
      var checkout := updateRepo(k);
      InstallGroup(prev.(trace := prev.trace + [Fetching(k, |grouped[k]|, checkout)]),
                   packageDir, checkout, readExport, grouped[k])
  }

  /** `p` is `dir`, lies inside it, or is one of the folders that contain it. */
  predicate InOrAbove(p: Path, dir: Path)
  {
    p == dir || IsUnder(p, dir) || IsUnder(dir, p)
  }

  /** What every run keeps true, measured from the filesystem `fs0` it started on:
      the result lists have equal length, the destinations are distinct, inside
      `packageDir`, absent before and present now, and the run created no path
      except in `packageDir` or on the way down to it. */
  ghost predicate Sound(r: Run, fs0: set<Path>, packageDir: Path)
  {
    && |r.installed| == |r.exports|
    && fs0 <= r.fs
    && (forall p :: p in r.fs && p !in fs0 ==> InOrAbove(p, packageDir))
    && (forall i, j :: 0 <= i < j < |r.installed| ==> r.installed[i] != r.installed[j])
    && (forall p :: p in r.installed ==> p in r.fs && p !in fs0 && IsUnder(p, packageDir))
    && (forall p, q :: p in r.installed && IsUnder(p, q) ==> q in r.fs)
  }

  lemma InstallDepSound(r: Run, fs0: set<Path>, packageDir: Path, checkout: Path,
                        readExport: Path -> Export, dep: DependencySource)
    requires Sound(r, fs0, packageDir)
    ensures Sound(InstallDep(r, packageDir, checkout, readExport, dep), fs0, packageDir)
  {
    var source := SourcePath(checkout, dep);
    var manifest := ManifestPath(source);
    if manifest in r.fs {
      var dest := JoinPath(packageDir, MountName(dep, readExport(manifest)));
      if dest !in r.fs {
        JoinPathIsUnder(packageDir, MountName(dep, readExport(manifest)));
        var fs' := CopyTree(r.fs, source, dest);
        forall p | p in fs' && p !in fs0 ensures InOrAbove(p, packageDir) {
          if p !in r.fs && p != dest {
            if IsUnder(p, dest) {
              IsUnderTransitive(p, dest, packageDir);
            } else {
              AncestorsNested(dest, p, packageDir);
            }
          }
        }
      }
    }
  }

  lemma {:induction false} InstallGroupSound(r: Run, fs0: set<Path>, packageDir: Path, checkout: Path,
                                             readExport: Path -> Export, deps: seq<DependencySource>)
    requires Sound(r, fs0, packageDir)
    ensures Sound(InstallGroup(r, packageDir, checkout, readExport, deps), fs0, packageDir)
  {
    if deps != [] {
      var init := deps[..|deps| - 1];
      InstallGroupSound(r, fs0, packageDir, checkout, readExport, init);
      InstallDepSound(InstallGroup(r, packageDir, checkout, readExport, init), fs0, packageDir,
                      checkout, readExport, deps[|deps| - 1]);
    }
  }

  /** Whole-run invariant: lockstep result lists, distinct fresh destinations,
      all inside the package directory. */
  lemma {:induction false} InstallGroupsSound(r: Run, fs0: set<Path>, packageDir: Path, keys: seq<RepoKey>,
                                              grouped: map<RepoKey, seq<DependencySource>>,
                                              updateRepo: RepoKey -> Path, readExport: Path -> Export)
    requires forall k :: k in keys ==> k in grouped
    requires Sound(r, fs0, packageDir)
    ensures Sound(InstallGroups(r, packageDir, keys, grouped, updateRepo, readExport), fs0, packageDir)
  {
    if keys != [] {
      var init := keys[..|keys| - 1];
      var k := keys[|keys| - 1];
      InstallGroupsSound(r, fs0, packageDir, init, grouped, updateRepo, readExport);
      var prev := InstallGroups(r, packageDir, init, grouped, updateRepo, readExport);
      InstallGroupSound(prev.(trace := prev.trace + [Fetching(k, |grouped[k]|, updateRepo(k))]),
                        fs0, packageDir, updateRepo(k), readExport, grouped[k]);
    }
  }

  /** A mount nested in an earlier one makes the outer folder exist: with `x/y`
      installed first, a later dependency mounted at `x` is skipped as existing. */
  lemma NestedMountSkipped(fs0: set<Path>, packageDir: Path, checkout: Path, readExport: Path -> Export,
                           d1: DependencySource, d2: DependencySource)
    requires ManifestPath(SourcePath(checkout, d1)) in fs0 && ManifestPath(SourcePath(checkout, d2)) in fs0
    requires MountName(d1, readExport(ManifestPath(SourcePath(checkout, d1)))) == "x/y"
    requires MountName(d2, readExport(ManifestPath(SourcePath(checkout, d2)))) == "x"
    requires JoinPath(packageDir, "x/y") !in fs0
    ensures var r := InstallGroup(Run(fs0, [], [], []), packageDir, checkout, readExport, [d1, d2]);
      && r.installed == [JoinPath(packageDir, "x/y")]
      && r.trace == [Downloaded(d1, "x/y"), AlreadyExists(d2, "x")]
  {
    var r0 := Run(fs0, [], [], []);
    assert [d1, d2][..1] == [d1];
    assert [d1][..0] == [];
    assert InstallGroup(r0, packageDir, checkout, readExport, []) == r0;
    var outer, inner := JoinPath(packageDir, "x"), JoinPath(packageDir, "x/y");
    var r1 := InstallDep(r0, packageDir, checkout, readExport, d1);
    assert r1 == InstallGroup(r0, packageDir, checkout, readExport, [d1]);
    assert r1.fs == CopyTree(fs0, SourcePath(checkout, d1), inner);
    assert inner[..|outer| + 1] == outer + "/";
    assert outer in r1.fs;
  }

  /** The body of `add` from `installed_destination_paths = []` to the end of the
      install loop, over the groups in dict order. */
  method Install(order: seq<RepoKey>, grouped: map<RepoKey, seq<DependencySource>>, packageDir: Path,
                 fs0: set<Path>, updateRepo: RepoKey -> Path, readExport: Path -> Export)
    returns (r: Run)
    requires forall k :: k in order ==> k in grouped
    ensures r == InstallGroups(Run(fs0, [], [], []), packageDir, order, grouped, updateRepo, readExport)
    ensures |r.installed| == |r.exports|
    ensures forall i, j :: 0 <= i < j < |r.installed| ==> r.installed[i] != r.installed[j]
    ensures forall p :: p in r.installed ==> p !in fs0 && p in r.fs && IsUnder(p, packageDir)
    ensures forall p, q :: p in r.installed && IsUnder(p, q) ==> q in r.fs
  {
    var fs := fs0;
    var installedDestinationPaths: seq<Path> := [];
    var installedExports: seq<Export> := [];
    var trace: seq<Event> := [];
    for g := 0 to |order|
      invariant Run(fs, installedDestinationPaths, installedExports, trace)
        == InstallGroups(Run(fs0, [], [], []), packageDir, order[..g], grouped, updateRepo, readExport)
    {
      assert order[..g + 1][..g] == order[..g];
      var key := order[g];
      var groupDeps := grouped[key];
      var sourceRepoPath := updateRepo(key);
      trace := trace + [Fetching(key, |groupDeps|, sourceRepoPath)];
      ghost var start := Run(fs, installedDestinationPaths, installedExports, trace);
      for t := 0 to |groupDeps|
        invariant Run(fs, installedDestinationPaths, installedExports, trace)
          == InstallGroup(start, packageDir, sourceRepoPath, readExport, groupDeps[..t])
      {
        assert groupDeps[..t + 1][..t] == groupDeps[..t];
        var dep := groupDeps[t];
        var sourcePath := SourcePath(sourceRepoPath, dep);
        var pyprojectPath := ManifestPath(sourcePath);
        if pyprojectPath !in fs {
          trace := trace + [ManifestMissing(dep, pyprojectPath)];
          continue;
        }
        var langserveExport := readExport(pyprojectPath);
        var innerApiPath := MountName(dep, langserveExport);
        var destinationPath := JoinPath(packageDir, innerApiPath);
        if destinationPath in fs {
          trace := trace + [AlreadyExists(dep, innerApiPath)];
          continue;
        }
        fs := CopyTree(fs, sourcePath, destinationPath);
        trace := trace + [Downloaded(dep, innerApiPath)];
        installedDestinationPaths := installedDestinationPaths + [destinationPath];
        installedExports := installedExports + [langserveExport];
      }
      assert groupDeps[..|groupDeps|] == groupDeps;
    }
    assert order[..|order|] == order;
    r := Run(fs, installedDestinationPaths, installedExports, trace);
    InstallGroupsSound(Run(fs0, [], [], []), fs0, packageDir, order, grouped, updateRepo, readExport);
  }

  /** The keys passed to `update_repo`, in call order. */
  function FetchedKeys(trace: seq<Event>): seq<RepoKey>
  {
    if trace == [] then []
    else
      var last := trace[|trace| - 1];
      FetchedKeys(trace[..|trace| - 1]) + (if last.Fetching? then [last.key] else [])
  }

  /** The dependencies handled (skipped or installed), in handling order. */
  function Handled(trace: seq<Event>): seq<DependencySource>
  {
    if trace == [] then []
    else
      var last := trace[|trace| - 1];
      Handled(trace[..|trace| - 1]) + (if last.Fetching? then [] else [last.dep])
  }

  /** The group being worked on after `trace`: the key of the latest fetch. */
  function CurrentKey(trace: seq<Event>): Option<RepoKey>
  {
    if trace == [] then None
    else if trace[|trace| - 1].Fetching? then Some(trace[|trace| - 1].key)
    else CurrentKey(trace[..|trace| - 1])
  }

  /** Every dependency is handled after the fetch of its own (repository, ref),
      with no other fetch in between. */
  ghost predicate Scoped(trace: seq<Event>)
  {
    forall j :: 0 <= j < |trace| && !trace[j].Fetching? ==> CurrentKey(trace[..j]) == Some(KeyOf(trace[j].dep))
  }

  lemma TraceSnoc(t: seq<Event>, e: Event)
    ensures FetchedKeys(t + [e]) == FetchedKeys(t) + (if e.Fetching? then [e.key] else [])
    ensures Handled(t + [e]) == Handled(t) + (if e.Fetching? then [] else [e.dep])
    ensures CurrentKey(t + [e]) == if e.Fetching? then Some(e.key) else CurrentKey(t)
    ensures Scoped(t) && (e.Fetching? || CurrentKey(t) == Some(KeyOf(e.dep))) ==> Scoped(t + [e])
  {
    assert (t + [e])[..|t|] == t;
    assert forall j :: 0 <= j < |t| ==> (t + [e])[..j] == t[..j];
  }

  /** One member appends one handled-dependency event and fetches nothing. */
  lemma InstallDepTrace(r: Run, packageDir: Path, checkout: Path, readExport: Path -> Export,
                        d: DependencySource)
    ensures var t := InstallDep(r, packageDir, checkout, readExport, d).trace;
      && FetchedKeys(t) == FetchedKeys(r.trace)
      && Handled(t) == Handled(r.trace) + [d]
      && CurrentKey(t) == CurrentKey(r.trace)
  {
    var t := InstallDep(r, packageDir, checkout, readExport, d).trace;
    assert t == r.trace + [t[|r.trace|]];
    TraceSnoc(r.trace, t[|r.trace|]);
  }

  /** The inner loop appends one handled-dependency event per member, in member
      order, and never fetches. */
  lemma {:induction false} InstallGroupTrace(r: Run, packageDir: Path, checkout: Path,
                                             readExport: Path -> Export, deps: seq<DependencySource>)
    ensures var r' := InstallGroup(r, packageDir, checkout, readExport, deps);
      && FetchedKeys(r'.trace) == FetchedKeys(r.trace)
      && Handled(r'.trace) == Handled(r.trace) + deps
      && CurrentKey(r'.trace) == CurrentKey(r.trace)
  {
    if deps != [] {
      var init, d := deps[..|deps| - 1], deps[|deps| - 1];
      InstallGroupTrace(r, packageDir, checkout, readExport, init);
      InstallDepTrace(InstallGroup(r, packageDir, checkout, readExport, init), packageDir, checkout, readExport, d);
      SplitLast(deps);
      assert Handled(r.trace) + init + [d] == Handled(r.trace) + deps;
    }
  }

  lemma {:induction false} InstallGroupScoped(r: Run, packageDir: Path, checkout: Path,
                                              readExport: Path -> Export, deps: seq<DependencySource>)
    requires Scoped(r.trace)
    requires forall d :: d in deps ==> CurrentKey(r.trace) == Some(KeyOf(d))
    ensures Scoped(InstallGroup(r, packageDir, checkout, readExport, deps).trace)
  {
    if deps != [] {
      var init, d := deps[..|deps| - 1], deps[|deps| - 1];
      PrefixMembers(deps, |deps| - 1);
      InstallGroupScoped(r, packageDir, checkout, readExport, init);
      InstallGroupTrace(r, packageDir, checkout, readExport, init);
      var mid := InstallGroup(r, packageDir, checkout, readExport, init);
      var r' := InstallDep(mid, packageDir, checkout, readExport, d);
      assert r'.trace == mid.trace + [r'.trace[|mid.trace|]];
      TraceSnoc(mid.trace, r'.trace[|mid.trace|]);
    }
  }

  /** `update_repo` is called once per group, in group order; with no groups
      there is no fetch at all. */
  lemma {:induction false} InstallGroupsFetches(r: Run, packageDir: Path, keys: seq<RepoKey>,
                                                grouped: map<RepoKey, seq<DependencySource>>,
                                                updateRepo: RepoKey -> Path, readExport: Path -> Export)
    requires forall k :: k in keys ==> k in grouped
    ensures FetchedKeys(InstallGroups(r, packageDir, keys, grouped, updateRepo, readExport).trace)
      == FetchedKeys(r.trace) + keys
  {
    if keys != [] {
      var init, k := keys[..|keys| - 1], keys[|keys| - 1];
      PrefixMembers(keys, |keys| - 1);
      SplitLast(keys);
      InstallGroupsFetches(r, packageDir, init, grouped, updateRepo, readExport);
      var prev := InstallGroups(r, packageDir, init, grouped, updateRepo, readExport);
      var e := Fetching(k, |grouped[k]|, updateRepo(k));
      TraceSnoc(prev.trace, e);
      InstallGroupTrace(prev.(trace := prev.trace + [e]), packageDir, updateRepo(k), readExport, grouped[k]);
      assert FetchedKeys(r.trace) + init + [k] == FetchedKeys(r.trace) + keys;
    } else {
      assert FetchedKeys(r.trace) + keys == FetchedKeys(r.trace);
    }
  }

  /** Every dependency of every group is handled once, in group order then
      member order. */
  lemma {:induction false} InstallGroupsHandled(r: Run, packageDir: Path, keys: seq<RepoKey>,
                                                grouped: map<RepoKey, seq<DependencySource>>,
                                                updateRepo: RepoKey -> Path, readExport: Path -> Export)
    requires forall k :: k in keys ==> k in grouped
    ensures Handled(InstallGroups(r, packageDir, keys, grouped, updateRepo, readExport).trace)
      == Handled(r.trace) + Flatten(keys, grouped)
  {
    if keys != [] {
      var init, k := keys[..|keys| - 1], keys[|keys| - 1];
      PrefixMembers(keys, |keys| - 1);
      var prev := InstallGroups(r, packageDir, init, grouped, updateRepo, readExport);
      var e := Fetching(k, |grouped[k]|, updateRepo(k));
      var fetched := prev.(trace := prev.trace + [e]);
      var h0, fi, g := Handled(r.trace), Flatten(init, grouped), grouped[k];
      assert Handled(fetched.trace) == h0 + fi by {
        InstallGroupsHandled(r, packageDir, init, grouped, updateRepo, readExport);
        TraceSnoc(prev.trace, e);
      }
      calc {
        Handled(InstallGroups(r, packageDir, keys, grouped, updateRepo, readExport).trace);
        Handled(InstallGroup(fetched, packageDir, updateRepo(k), readExport, g).trace);
        { InstallGroupTrace(fetched, packageDir, updateRepo(k), readExport, g); }
        Handled(fetched.trace) + g;
        (h0 + fi) + g;
        h0 + Flatten(keys, grouped);
      }
    }
  }

  /** Every dependency is handled under the checkout of its own (repository, ref):
      the latest `update_repo` call before it was for its key. */
  lemma {:induction false} InstallGroupsScoped(r: Run, packageDir: Path, keys: seq<RepoKey>,
                                               grouped: map<RepoKey, seq<DependencySource>>,
                                               updateRepo: RepoKey -> Path, readExport: Path -> Export)
    requires forall k :: k in keys ==> k in grouped
    requires forall k, d :: k in keys && k in grouped && d in grouped[k] ==> KeyOf(d) == k
    requires Scoped(r.trace)
    ensures Scoped(InstallGroups(r, packageDir, keys, grouped, updateRepo, readExport).trace)
  {
    if keys != [] {
      var init, k := keys[..|keys| - 1], keys[|keys| - 1];
      PrefixMembers(keys, |keys| - 1);
      SplitLast(keys);
      InstallGroupsScoped(r, packageDir, init, grouped, updateRepo, readExport);
      var prev := InstallGroups(r, packageDir, init, grouped, updateRepo, readExport);
      var e := Fetching(k, |grouped[k]|, updateRepo(k));
      TraceSnoc(prev.trace, e);
      InstallGroupScoped(prev.(trace := prev.trace + [e]), packageDir, updateRepo(k), readExport, grouped[k]);
    }
  }

  /** The `Downloaded` events of a trace, in order: one per installed template. */
  function Downloads(trace: seq<Event>): (ds: seq<Event>)
    ensures forall k :: 0 <= k < |ds| ==> ds[k].Downloaded?
  {
    if trace == [] then []
    else
      var last := trace[|trace| - 1];
      Downloads(trace[..|trace| - 1]) + (if last.Downloaded? then [last] else [])
  }

  lemma DownloadsSnoc(t: seq<Event>, e: Event)
    ensures Downloads(t + [e]) == Downloads(t) + (if e.Downloaded? then [e] else [])
  {
    assert (t + [e])[..|t|] == t;
  }

  /** Position k of the two parallel result lists belongs to the k-th downloaded
      dependency d: the export is the one read from d's manifest in the checkout of
      d's own (repository, ref), the mount name is chosen from d and that export, and
      the destination is that mount in the package directory. */
  ghost predicate Paired(r: Run, packageDir: Path, updateRepo: RepoKey -> Path, readExport: Path -> Export)
  {
    var ds := Downloads(r.trace);
    && |r.installed| == |r.exports| == |ds|
    && forall k :: 0 <= k < |ds| ==>
         && r.exports[k] == readExport(ManifestPath(SourcePath(updateRepo(KeyOf(ds[k].dep)), ds[k].dep)))
         && ds[k].mount == MountName(ds[k].dep, r.exports[k])
         && r.installed[k] == JoinPath(packageDir, ds[k].mount)
  }

  lemma InstallDepPaired(r: Run, packageDir: Path, checkout: Path, updateRepo: RepoKey -> Path,
                         readExport: Path -> Export, dep: DependencySource)
    requires checkout == updateRepo(KeyOf(dep))
    requires Paired(r, packageDir, updateRepo, readExport)
    ensures Paired(InstallDep(r, packageDir, checkout, readExport, dep), packageDir, updateRepo, readExport)
  {
    var r' := InstallDep(r, packageDir, checkout, readExport, dep);
    DownloadsSnoc(r.trace, r'.trace[|r.trace|]);
    assert r'.trace == r.trace + [r'.trace[|r.trace|]];
  }

  lemma {:induction false} InstallGroupPaired(r: Run, packageDir: Path, checkout: Path, updateRepo: RepoKey -> Path,
                                              readExport: Path -> Export, deps: seq<DependencySource>)
    requires forall d :: d in deps ==> updateRepo(KeyOf(d)) == checkout
    requires Paired(r, packageDir, updateRepo, readExport)
    ensures Paired(InstallGroup(r, packageDir, checkout, readExport, deps), packageDir, updateRepo, readExport)
  {
    if deps != [] {
      var init, d := deps[..|deps| - 1], deps[|deps| - 1];
      PrefixMembers(deps, |deps| - 1);
      InstallGroupPaired(r, packageDir, checkout, updateRepo, readExport, init);
      InstallDepPaired(InstallGroup(r, packageDir, checkout, readExport, init), packageDir, checkout,
                       updateRepo, readExport, d);
    }
  }

  /** Over the whole install, the two result lists stay paired position by position
      with the downloaded dependencies, when every group holds only its own key. */
  lemma {:induction false} InstallGroupsPaired(r: Run, packageDir: Path, keys: seq<RepoKey>,
                                               grouped: map<RepoKey, seq<DependencySource>>,
                                               updateRepo: RepoKey -> Path, readExport: Path -> Export)
    requires forall k :: k in keys ==> k in grouped
    requires forall k, d :: k in keys && k in grouped && d in grouped[k] ==> KeyOf(d) == k
    requires Paired(r, packageDir, updateRepo, readExport)
    ensures Paired(InstallGroups(r, packageDir, keys, grouped, updateRepo, readExport), packageDir, updateRepo, readExport)
  {
    if keys != [] {
      var init, k := keys[..|keys| - 1], keys[|keys| - 1];
      PrefixMembers(keys, |keys| - 1);
      InstallGroupsPaired(r, packageDir, init, grouped, updateRepo, readExport);
      var prev := InstallGroups(r, packageDir, init, grouped, updateRepo, readExport);
      var e := Fetching(k, |grouped[k]|, updateRepo(k));
      DownloadsSnoc(prev.trace, e);
      InstallGroupPaired(prev.(trace := prev.trace + [e]), packageDir, updateRepo(k), updateRepo, readExport, grouped[k]);
    }
  }

  /** A dependency whose manifest existed in `fs0` has its destination in `fs`. */
  ghost predicate DepSettled(fs0: set<Path>, fs: set<Path>, packageDir: Path, checkout: Path,
                             readExport: Path -> Export, dep: DependencySource)
  {
    var manifest := ManifestPath(SourcePath(checkout, dep));
    manifest in fs0 ==> JoinPath(packageDir, MountName(dep, readExport(manifest))) in fs
  }

  lemma {:induction false} InstallGroupSettles(r: Run, fs0: set<Path>, packageDir: Path, checkout: Path,
                                               readExport: Path -> Export, deps: seq<DependencySource>)
    requires fs0 <= r.fs
    ensures var r' := InstallGroup(r, packageDir, checkout, readExport, deps);
      r.fs <= r'.fs && forall d :: d in deps ==> DepSettled(fs0, r'.fs, packageDir, checkout, readExport, d)
  {
    if deps != [] {
      var init, d := deps[..|deps| - 1], deps[|deps| - 1];
      InstallGroupSettles(r, fs0, packageDir, checkout, readExport, init);
      SplitLast(deps);
    }
  }

  lemma {:induction false} InstallGroupsSettles(r: Run, fs0: set<Path>, packageDir: Path, keys: seq<RepoKey>,
                                                grouped: map<RepoKey, seq<DependencySource>>,
                                                updateRepo: RepoKey -> Path, readExport: Path -> Export)
    requires forall k :: k in keys ==> k in grouped
    requires fs0 <= r.fs
    ensures var r' := InstallGroups(r, packageDir, keys, grouped, updateRepo, readExport);
      && r.fs <= r'.fs
      && forall k, d :: k in keys && k in grouped && d in grouped[k] ==>
           DepSettled(fs0, r'.fs, packageDir, updateRepo(k), readExport, d)
  {
    if keys != [] {
      var init, k := keys[..|keys| - 1], keys[|keys| - 1];
      InstallGroupsSettles(r, fs0, packageDir, init, grouped, updateRepo, readExport);
      var prev := InstallGroups(r, packageDir, init, grouped, updateRepo, readExport);
      InstallGroupSettles(prev.(trace := prev.trace + [Fetching(k, |grouped[k]|, updateRepo(k))]),
                          fs0, packageDir, updateRepo(k), readExport, grouped[k]);
      SplitLast(keys);
    }
  }

  lemma {:induction false} InstallGroupNoop(r: Run, packageDir: Path, checkout: Path,
                                            readExport: Path -> Export, deps: seq<DependencySource>)
    requires forall d :: d in deps ==> DepSettled(r.fs, r.fs, packageDir, checkout, readExport, d)
    ensures var r' := InstallGroup(r, packageDir, checkout, readExport, deps);
      r'.fs == r.fs && r'.installed == r.installed && r'.exports == r.exports
  {
    if deps != [] {
      var init, d := deps[..|deps| - 1], deps[|deps| - 1];
      PrefixMembers(deps, |deps| - 1);
      InstallGroupNoop(r, packageDir, checkout, readExport, init);
      assert d in deps;
      var mid := InstallGroup(r, packageDir, checkout, readExport, init);
      assert DepSettled(mid.fs, mid.fs, packageDir, checkout, readExport, d);
    }
  }

  /** A run over a filesystem where every dependency with a manifest is already
      mounted installs nothing and changes nothing. */
  lemma {:induction false} InstallGroupsNoop(r: Run, packageDir: Path, keys: seq<RepoKey>,
                                             grouped: map<RepoKey, seq<DependencySource>>,
                                             updateRepo: RepoKey -> Path, readExport: Path -> Export)
    requires forall k :: k in keys ==> k in grouped
    requires forall k, d :: k in keys && k in grouped && d in grouped[k] ==>
      DepSettled(r.fs, r.fs, packageDir, updateRepo(k), readExport, d)
    ensures var r' := InstallGroups(r, packageDir, keys, grouped, updateRepo, readExport);
      r'.fs == r.fs && r'.installed == r.installed && r'.exports == r.exports
  {
    if keys != [] {
      var init, k := keys[..|keys| - 1], keys[|keys| - 1];
      PrefixMembers(keys, |keys| - 1);
      SplitLast(keys);
      InstallGroupsNoop(r, packageDir, init, grouped, updateRepo, readExport);
      var prev := InstallGroups(r, packageDir, init, grouped, updateRepo, readExport);
      InstallGroupNoop(prev.(trace := prev.trace + [Fetching(k, |grouped[k]|, updateRepo(k))]),
                       packageDir, updateRepo(k), readExport, grouped[k]);
    }
  }

  /** Installing the same groups a second time, onto the filesystem the first run
      left behind, installs nothing: every mount path of the first run exists.
      (Manifests are read from checkouts away from the package directory.) */
  lemma InstallTwiceInstallsNothing(fs0: set<Path>, packageDir: Path, keys: seq<RepoKey>,
                                    grouped: map<RepoKey, seq<DependencySource>>,
                                    updateRepo: RepoKey -> Path, readExport: Path -> Export)
    requires forall k :: k in keys ==> k in grouped
    requires forall k, d :: k in keys && k in grouped && d in grouped[k] ==>
      !InOrAbove(ManifestPath(SourcePath(updateRepo(k), d)), packageDir)
    ensures var first := InstallGroups(Run(fs0, [], [], []), packageDir, keys, grouped, updateRepo, readExport);
      var second := InstallGroups(Run(first.fs, [], [], []), packageDir, keys, grouped, updateRepo, readExport);
      second.installed == [] && second.exports == [] && second.fs == first.fs
  {
    var first := InstallGroups(Run(fs0, [], [], []), packageDir, keys, grouped, updateRepo, readExport);
    InstallGroupsSound(Run(fs0, [], [], []), fs0, packageDir, keys, grouped, updateRepo, readExport);
    InstallGroupsSettles(Run(fs0, [], [], []), fs0, packageDir, keys, grouped, updateRepo, readExport);
    forall k, d | k in keys && k in grouped && d in grouped[k]
      ensures DepSettled(first.fs, first.fs, packageDir, updateRepo(k), readExport, d)
    {
      assert DepSettled(fs0, first.fs, packageDir, updateRepo(k), readExport, d);
    }
    InstallGroupsNoop(Run(first.fs, [], [], []), packageDir, keys, grouped, updateRepo, readExport);
  }

}
