/** `langchain app add` end to end: group, install, then either the
    "nothing installed" exit or (when the user confirms) the route code. */
module AppAdd {
  import opened Wrappers
  import opened Strings
  import opened AppGroups
  import opened AppInstall
  import opened AppRoutes

  const NothingInstalledMessage: string := "No packages installed. Exiting."

  /** What a run of `add` leaves behind: the install state (filesystem, result
      lists, trace), the generated code if any, and every line echoed. */
  datatype Report = Report(run: Run, routeCode: Option<RouteCode>, output: seq<string>)

  function EchoLines(trace: seq<Event>): seq<string>
  {
    seq(|trace|, i requires 0 <= i < |trace| => EchoLine(trace[i]))
  }

  /** No line echoed while installing reads as the exit message. */
  lemma EchoLinesNotExit(trace: seq<Event>)
    ensures NothingInstalledMessage !in EchoLines(trace)
  {
    forall i | 0 <= i < |trace| ensures EchoLines(trace)[i] != NothingInstalledMessage {
      var line := EchoLine(trace[i]);
      assert line[0] != 'N';
    }
  }

  lemma RouteMessageNotExit(code: RouteCode)
    ensures RouteMessage(code) != NothingInstalledMessage
  {
    var parts := ["", "Great! Add the following to your app:\n\n```", ""] + code.imports + [""] + code.routes + ["```"];
    assert parts[..|parts| - 1] + ["```"] == parts;
    var msg := RouteMessage(code);
    assert msg == Join("\n", parts[..|parts| - 1]) + "\n" + "```";
    assert msg[|msg| - 1] == '`';
  }

  /** The groups built by the grouping loop hold only dependencies of their own key. */
  lemma GroupMapKeys(deps: seq<DependencySource>)
    ensures forall k :: k in FirstSeenKeys(deps) ==> k in GroupMap(deps)
    ensures forall k, d :: k in FirstSeenKeys(deps) && k in GroupMap(deps) && d in GroupMap(deps)[k] ==>
      d in deps && KeyOf(d) == k
  {
    forall k | k in FirstSeenKeys(deps) {
      WithKeyMembers(deps, k);
    }
  }

  /** The trace of a run of `add`: one fetch per distinct (git, ref) in first-seen
      order, every dependency handled exactly once and under its own fetch. */
  lemma AddTrace(deps: seq<DependencySource>, packageDir: Path, fs0: set<Path>,
                 updateRepo: RepoKey -> Path, readExport: Path -> Export)
    ensures var trace := InstallGroups(Run(fs0, [], [], []), packageDir, FirstSeenKeys(deps), GroupMap(deps),
                                       updateRepo, readExport).trace;
      && FetchedKeys(trace) == FirstSeenKeys(deps)
      && multiset(Handled(trace)) == multiset(deps)
      && Scoped(trace)
  {
    var r0, keys, grouped := Run(fs0, [], [], []), FirstSeenKeys(deps), GroupMap(deps);
    GroupMapKeys(deps);
    InstallGroupsFetches(r0, packageDir, keys, grouped, updateRepo, readExport);
    InstallGroupsHandled(r0, packageDir, keys, grouped, updateRepo, readExport);
    InstallGroupsScoped(r0, packageDir, keys, grouped, updateRepo, readExport);
    GroupsPartition(deps);
  }

  /** Position k of `installed_destination_paths` and of `installed_exports`
      belongs to the same dependency, the k-th one downloaded, so the positional
      `zip`s of the route code pair each destination with its own export. */
  lemma AddPaired(deps: seq<DependencySource>, packageDir: Path, fs0: set<Path>,
                  updateRepo: RepoKey -> Path, readExport: Path -> Export)
    ensures Paired(InstallGroups(Run(fs0, [], [], []), packageDir, FirstSeenKeys(deps), GroupMap(deps),
                                 updateRepo, readExport), packageDir, updateRepo, readExport)
  {
    GroupMapKeys(deps);
    InstallGroupsPaired(Run(fs0, [], [], []), packageDir, FirstSeenKeys(deps), GroupMap(deps), updateRepo, readExport);
  }

  /** The route code for the installed templates: the deduplicated chain names,
      one `/`-rooted API path per destination that joins back onto it, and one
      import and one route line per template, entry i built from template i. */
  predicate RouteCodeFor(code: RouteCode, installed: seq<Path>, exports: seq<Export>, packageDir: Path)
    requires |installed| == |exports|
  {
    var n := |installed|;
    && code.chainNames == ChainNamesOf(exports)
    && |code.chainNames| == |code.apiPaths| == |code.imports| == |code.routes| == n
    && (forall i, j :: 0 <= i < j < n ==> code.chainNames[i] != code.chainNames[j])
    && (forall i :: 0 <= i < n ==>
          && |code.apiPaths[i]| >= 1 && code.apiPaths[i][0] == '/'
          && JoinPath(packageDir, code.apiPaths[i][1..]) == installed[i]
          && code.imports[i] == ImportLine(exports[i], code.chainNames[i])
          && code.routes[i] == RouteLine(code.chainNames[i], code.apiPaths[i]))
  }

  /** The end of `add` once the install loop is done: the exit when nothing was
      installed, else (when the user agrees) the route code and its echoed block. */
  method Conclude(run: Run, packageDir: Path, generateRoutes: bool) returns (report: Report)
    requires |run.installed| == |run.exports|
    requires forall p :: p in run.installed ==> IsUnder(p, packageDir)
    ensures report.run == run
    ensures NothingInstalledMessage in report.output <==> run.installed == []
    ensures run.installed == [] ==>
      report.routeCode == None && report.output == EchoLines(run.trace) + [NothingInstalledMessage]
    ensures report.routeCode.Some? <==> run.installed != [] && generateRoutes
    ensures run.installed != [] && !generateRoutes ==> report.output == EchoLines(run.trace)
    ensures report.routeCode.Some? ==>
      && report.output == EchoLines(run.trace) + [RouteMessage(report.routeCode.value)]
      && RouteCodeFor(report.routeCode.value, run.installed, run.exports, packageDir)
  {
    var output := EchoLines(run.trace);
    EchoLinesNotExit(run.trace);
    if |run.installed| == 0 {
      report := Report(run, None, output + [NothingInstalledMessage]);
      return;
    }
    if generateRoutes {
      var code := GenerateRouteCode(run.installed, run.exports, packageDir);
      RouteMessageNotExit(code);
      report := Report(run, Some(code), output + [RouteMessage(code)]);
    } else {
      report := Report(run, None, output);
    }
  }

  /** The body of `add` from the grouping loop on. `updateRepo` and `readExport`
      stand for `update_repo` and `get_langserve_export`; `generateRoutes` is the
      user's answer to "Generate route code for these packages?". */
  method Add(deps: seq<DependencySource>, packageDir: Path, fs0: set<Path>,
             updateRepo: RepoKey -> Path, readExport: Path -> Export, generateRoutes: bool)
    returns (report: Report)
    ensures report.run
      == InstallGroups(Run(fs0, [], [], []), packageDir, FirstSeenKeys(deps), GroupMap(deps), updateRepo, readExport)
    // one `update_repo` per distinct (git, ref), in first-seen order
    ensures FetchedKeys(report.run.trace) == FirstSeenKeys(deps)
    // every dependency handled exactly once, after the fetch of its own group
    ensures multiset(Handled(report.run.trace)) == multiset(deps)
    ensures Scoped(report.run.trace)
    // the parallel result lists are paired position by position; destinations are new and distinct
    ensures |report.run.installed| == |report.run.exports|
    ensures Paired(report.run, packageDir, updateRepo, readExport)
    ensures forall i, j :: 0 <= i < j < |report.run.installed| ==> report.run.installed[i] != report.run.installed[j]
    ensures forall p :: p in report.run.installed ==> p !in fs0 && p in report.run.fs
    // the exit message is printed exactly when nothing was installed, and is then the last line
    ensures NothingInstalledMessage in report.output <==> report.run.installed == []
    ensures report.run.installed == [] ==>
      report.routeCode == None && report.output == EchoLines(report.run.trace) + [NothingInstalledMessage]
    ensures deps == [] ==> report.run.trace == [] && report.output == [NothingInstalledMessage]
    // route code is generated when something was installed and the user agreed
    ensures report.routeCode.Some? <==> report.run.installed != [] && generateRoutes
    ensures report.routeCode.Some? ==>
      && report.output == EchoLines(report.run.trace) + [RouteMessage(report.routeCode.value)]
      && RouteCodeFor(report.routeCode.value, report.run.installed, report.run.exports, packageDir)
  {
    var order, grouped := GroupByRepo(deps);
    var run := Install(order, grouped, packageDir, fs0, updateRepo, readExport);
    AddTrace(deps, packageDir, fs0, updateRepo, readExport);
    AddPaired(deps, packageDir, fs0, updateRepo, readExport);
    report := Conclude(run, packageDir, generateRoutes);
  }

  /** Running `add` again with the same dependencies, on the filesystem the first
      run left, installs nothing (manifests are read from checkouts that lie outside
      the package directory). */
  lemma AddTwiceInstallsNothing(deps: seq<DependencySource>, packageDir: Path, fs0: set<Path>,
                                updateRepo: RepoKey -> Path, readExport: Path -> Export)
    requires forall d :: d in deps ==> !InOrAbove(ManifestPath(SourcePath(updateRepo(KeyOf(d)), d)), packageDir)
    ensures var keys, grouped := FirstSeenKeys(deps), GroupMap(deps);
      var first := InstallGroups(Run(fs0, [], [], []), packageDir, keys, grouped, updateRepo, readExport);
      var second := InstallGroups(Run(first.fs, [], [], []), packageDir, keys, grouped, updateRepo, readExport);
      second.installed == [] && second.exports == [] && second.fs == first.fs
  {
    GroupMapKeys(deps);
    forall k, d | k in FirstSeenKeys(deps) && k in GroupMap(deps) && d in GroupMap(deps)[k]
      ensures !InOrAbove(ManifestPath(SourcePath(updateRepo(k), d)), packageDir)
    {
      WithKeyMembers(deps, k);
      assert d in deps && KeyOf(d) == k;
    }
    InstallTwiceInstallsNothing(fs0, packageDir, FirstSeenKeys(deps), GroupMap(deps), updateRepo, readExport);
  }

}
