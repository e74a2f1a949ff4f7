# LangChain CLI `app add` and the chain-of-note-wiki passage formatter

This project models two pieces of the LangChain repository in Dafny.

The first is `langchain app add`. The command adds LangServe templates to an application:

- It groups the requested dependencies by (git repository, ref), keeping the order in which each group first appears.
- It checks out each group once: once per (repository, ref) pair, so one repository requested at two refs is checked out twice.
- For each dependency it looks for `pyproject.toml` under the dependency's subdirectory. The mount name is the dependency's API path, or else the package name read from the manifest.
- It copies the template into `packages/<mount>` unless that folder already exists. Two parallel lists record each installed destination and its export.
- When nothing was installed it prints `No packages installed. Exiting.` and stops.
- Otherwise, when the user agrees, it generates route code. Each export gets a chain name: its package name with every `-` replaced by `_`, followed by `_chain`, and deduplicated with `_2`, `_3`, … and each destination a `/`-rooted API path. From these come one import line and one `add_routes` line per template.

The second is `format_docs` from the chain-of-note-wiki template. It turns retrieved Wikipedia passages into numbered blocks (`Wikipedia 1:`, `Wikipedia 2:`, …) separated by blank lines.

Modules:

- `Wrappers` provides `Option`. `Sequences` and `Strings` are helpers: prefix lemmas, decimal rendering with its parse round trip, `join`, and character replacement.
- `ChainOfNoteWiki` models `format_docs`.
- `AppGroups` models the dependency record and the grouping loop.
- `AppInstall` models the install loop. The filesystem is a set of existing paths, passed in and returned. `update_repo` and `get_langserve_export` are function parameters. What the loop echoes is a trace of events; `EchoLine` renders each event as its printed text.
- `AppRoutes` models chain names, API paths and the generated snippets.
- `AppAdd` models the whole command from the grouping loop on. The route-code confirmation is a boolean parameter.

## Model

| member | source | states |
|---|---|---|
| ChainOfNoteWiki.Block | templates/chain-of-note-wiki/chain_of_note_wiki/chain.py:21 | the f-string for document i (from 0): `Wikipedia ` + decimal(i+1) + `:` + newline + the page content; BlockInjective states that it tells passages apart |
| ChainOfNoteWiki.Blocks | templates/chain-of-note-wiki/chain_of_note_wiki/chain.py:21 | the generator over `enumerate(docs)`: one block per document, in input order, block i numbered i+1 |
| ChainOfNoteWiki.FormatDocs | templates/chain-of-note-wiki/chain_of_note_wiki/chain.py:19-22 | the definition: block i is `Wikipedia ` + decimal(i+1) + `:` + newline + content i, and the blocks are joined with a blank line; its meaning is stated by the FormatDocs lemmas below |
| ChainOfNoteWiki.FormatDocsEmpty | templates/chain-of-note-wiki/chain_of_note_wiki/chain.py:19-22 | the formatted text is empty exactly when there are no documents |
| ChainOfNoteWiki.FormatDocsSingle | templates/chain-of-note-wiki/chain_of_note_wiki/chain.py:19-22 | one document gives `Wikipedia 1:` + newline + its content, with no separator |
| ChainOfNoteWiki.FormatDocsSnoc | templates/chain-of-note-wiki/chain_of_note_wiki/chain.py:19-22 | one more document appends a blank line and its block, numbered by its 1-based position, to the text for the earlier ones |
| ChainOfNoteWiki.FormatDocsLength | templates/chain-of-note-wiki/chain_of_note_wiki/chain.py:19-22 | the length is the sum of the block lengths plus one two-character separator between neighbours |
| ChainOfNoteWiki.FormatDocsStartsAtOne | templates/chain-of-note-wiki/chain_of_note_wiki/chain.py:19-22 | a non-empty result starts with the block of the first document, numbered 1 |
| ChainOfNoteWiki.BlockInjective | templates/chain-of-note-wiki/chain_of_note_wiki/chain.py:21 | two blocks are equal only when both the number and the content are equal, so the numbering tells passages apart |
| Strings.NatToString | libs/cli/langchain_cli/namespaces/app.py:158 | `str(i)`: a non-empty string of digits with a leading zero only for 0 |
| Strings.ParseNatToString | libs/cli/langchain_cli/namespaces/app.py:158 | reading back the decimal text of n gives n |
| Strings.NatToStringInjective | libs/cli/langchain_cli/namespaces/app.py:158 | different numbers have different decimal texts |
| Strings.Join | templates/chain-of-note-wiki/chain_of_note_wiki/chain.py:20 | the definition of `sep.join(parts)`: empty for no parts, the part itself for one, and otherwise the join of all but the last, the separator and the last; JoinLength, JoinStartsWithFirst and JoinSnoc state its properties |
| Strings.JoinSnoc | templates/chain-of-note-wiki/chain_of_note_wiki/chain.py:20 | appending a part to a non-empty join appends the separator and then that part |
| Strings.JoinLength | templates/chain-of-note-wiki/chain_of_note_wiki/chain.py:20 | `sep.join(parts)` has the total length of the parts plus one separator between each pair |
| Strings.JoinStartsWithFirst | templates/chain-of-note-wiki/chain_of_note_wiki/chain.py:20 | a join starts with its first part |
| Strings.ReplaceChar | libs/cli/langchain_cli/namespaces/app.py:154 | `replace("-", "_")` keeps the length and changes exactly the matching characters |
| AppGroups.KeyOf | libs/cli/langchain_cli/namespaces/app.py:94 | `key_tup`: a dependency's (git, ref) pair, the grouping key |
| AppGroups.Truthy | libs/cli/langchain_cli/namespaces/app.py:112 | Python truthiness of an optional string, as tested here and at line 122: neither `None` nor empty; used by SourcePath and MountName |
| AppGroups.FirstSeenKeys | libs/cli/langchain_cli/namespaces/app.py:92-97 | the dict's keys in insertion order: there are never more keys than dependencies |
| AppGroups.FirstSeenKeysDistinct | libs/cli/langchain_cli/namespaces/app.py:92-97 | the group keys are pairwise distinct: a key already in the dict is not inserted again |
| AppGroups.FirstSeenKeysCover | libs/cli/langchain_cli/namespaces/app.py:92-97 | the key of every dependency is a group key |
| AppGroups.WithKeyMembers | libs/cli/langchain_cli/namespaces/app.py:94-97 | a group holds exactly the dependencies whose (git, ref) is its key |
| AppGroups.WithKey | libs/cli/langchain_cli/namespaces/app.py:94-97 | the definition of one group: the dependencies with key k, in input order; WithKeyMembers states its membership |
| AppGroups.GroupMap | libs/cli/langchain_cli/namespaces/app.py:92-97 | the definition of the `grouped` dict: each first-seen key maps to its group; GroupByRepo is proved to build it |
| AppGroups.GroupMapSnoc | libs/cli/langchain_cli/namespaces/app.py:94-97 | one more dependency sets its key's entry to the old list (empty for a new key) plus that dependency, and leaves every other entry alone |
| AppGroups.GroupByRepo | libs/cli/langchain_cli/namespaces/app.py:92-97 | the grouping loop returns the first-seen key order and, for each key, the dependencies with that key in input order |
| AppGroups.NoMembersBeforeFirstSeen | libs/cli/langchain_cli/namespaces/app.py:92-97 | a key that is not a group key has no dependencies |
| AppGroups.FirstSeenKeysOccur | libs/cli/langchain_cli/namespaces/app.py:92-97 | every group key is the key of some dependency |
| AppGroups.FirstSeenPrefix | libs/cli/langchain_cli/namespaces/app.py:92-97 | the keys of a prefix of the input are a prefix of the keys of the whole input |
| AppGroups.FirstSeenOrder | libs/cli/langchain_cli/namespaces/app.py:92-97 | when group i comes before group j, some dependency of group i comes before any dependency of group j |
| AppGroups.PartitionStep | libs/cli/langchain_cli/namespaces/app.py:92-97 | a dependency with a key not seen before opens a group holding just that dependency; one with a known key opens no group |
| AppGroups.GroupsPartition | libs/cli/langchain_cli/namespaces/app.py:92-102 | concatenating the groups in key order gives a permutation of the input: every dependency is in exactly one group, none lost or duplicated |
| AppInstall.JoinPath | libs/cli/langchain_cli/namespaces/app.py:124 | pathlib's `base / name` on string paths, also used at lines 111 and 115; JoinPathIsUnder states that the result lies under `base` |
| AppInstall.ManifestPath | libs/cli/langchain_cli/namespaces/app.py:115 | `source_path / "pyproject.toml"` |
| AppInstall.OptionText | libs/cli/langchain_cli/namespaces/app.py:104 | how the f-strings here and at lines 106 and 131 print an optional value: `None` as the text `None`, otherwise the value |
| AppInstall.JoinPathIsUnder | libs/cli/langchain_cli/namespaces/app.py:124 | `package_dir / name` lies inside `package_dir` |
| AppInstall.IsUnderTransitive | libs/cli/langchain_cli/namespaces/app.py:124-130 | a path inside a folder inside the package directory is inside the package directory |
| AppInstall.Ancestors | libs/cli/langchain_cli/namespaces/app.py:130 | the folders that contain a path; a folder is in the set exactly when the path lies inside it |
| AppInstall.AncestorsNested | libs/cli/langchain_cli/namespaces/app.py:124-130 | two folders that both contain a path are equal or nested, so the parents of a mount folder are the package directory, folders inside it, or folders above it |
| AppInstall.SourcePath | libs/cli/langchain_cli/namespaces/app.py:110-114 | the definition: the checkout joined with `subdirectory` when that is set and non-empty, else the checkout itself |
| AppInstall.MountName | libs/cli/langchain_cli/namespaces/app.py:121-122 | the definition: the dependency's `api_path` when set and non-empty, else the export's `package_name` |
| AppInstall.CopyTree | libs/cli/langchain_cli/namespaces/app.py:130 | `copy_repo` only adds paths. The destination and every folder that contains it come to exist, and every new path is the destination, lies inside it, or is one of its parent folders |
| AppInstall.EchoLine | libs/cli/langchain_cli/namespaces/app.py:103-131 | each echoed line: `Adding g@r...` for a group of one, `Adding N templates from g@r` otherwise, `Could not find <manifest>`, `Folder <mount> already exists. Skipping...`, ` - Downloaded <subdirectory> to <mount>`, with a missing value printed as `None`; the contract states that every line is non-empty and that its first character tells the four kinds of event apart |
| AppInstall.InstallDep | libs/cli/langchain_cli/namespaces/app.py:109-133 | one pass of the inner loop body never removes a path and echoes exactly one line about this dependency, never a fetch line |
| AppInstall.InstallDepSound | libs/cli/langchain_cli/namespaces/app.py:110-133 | one dependency keeps the run sound: the two result lists stay the same length; each destination is distinct, absent at the start, present now and inside the package directory; every folder containing a destination exists; and no path is created except in the package directory or on the way down to it |
| AppInstall.InstallGroup | libs/cli/langchain_cli/namespaces/app.py:109-133 | the definition of the inner loop: the dependencies of one group, one InstallDep after another, in group order |
| AppInstall.InstallGroupSound | libs/cli/langchain_cli/namespaces/app.py:109-133 | the inner loop over a group keeps the run sound |
| AppInstall.InstallGroups | libs/cli/langchain_cli/namespaces/app.py:102-133 | the definition of the outer loop: for each key in order, the fetch event with the group size and checkout, then InstallGroup over its group |
| AppInstall.InstallGroupsSound | libs/cli/langchain_cli/namespaces/app.py:102-133 | the outer loop over groups keeps the run sound |
| AppInstall.Install | libs/cli/langchain_cli/namespaces/app.py:99-133 | the nested install loops compute exactly InstallGroups (outer loop) over InstallGroup (inner loop). The two lists have equal length; every destination is new, distinct, present afterwards and inside the package directory; every folder containing one exists |
| AppInstall.NestedMountSkipped | libs/cli/langchain_cli/namespaces/app.py:124-130 | with `x/y` installed first, a later dependency mounted at `x` finds its folder existing and is skipped: only `x/y` is installed |
| AppInstall.TraceSnoc | libs/cli/langchain_cli/namespaces/app.py:102-131 | appending an echo event extends the fetched keys (for a fetch) or the handled dependencies (otherwise) |
| AppInstall.InstallDepTrace | libs/cli/langchain_cli/namespaces/app.py:109-131 | handling one dependency echoes exactly one line, about that dependency, and fetches nothing |
| AppInstall.InstallGroupTrace | libs/cli/langchain_cli/namespaces/app.py:109-131 | the inner loop fetches nothing, handles the group's dependencies in order, and leaves the current group unchanged |
| AppInstall.InstallGroupScoped | libs/cli/langchain_cli/namespaces/app.py:102-131 | every dependency of a group is reported after the fetch of its own (git, ref) |
| AppInstall.InstallGroupsFetches | libs/cli/langchain_cli/namespaces/app.py:102-107 | the outer loop calls `update_repo` once per key, in key order |
| AppInstall.InstallGroupsHandled | libs/cli/langchain_cli/namespaces/app.py:102-131 | the outer loop reports the dependencies group after group, each in group order |
| AppInstall.InstallGroupsScoped | libs/cli/langchain_cli/namespaces/app.py:102-131 | across groups, every handled dependency follows the fetch of its own key |
| AppInstall.Downloads | libs/cli/langchain_cli/namespaces/app.py:131-133 | the `Downloaded` events of the trace, in order, and nothing else |
| AppInstall.Paired | libs/cli/langchain_cli/namespaces/app.py:119-133 | the pairing invariant: both result lists are as long as the downloads, and position k holds the k-th downloaded dependency's destination and the export read from its manifest |
| AppInstall.InstallDepPaired | libs/cli/langchain_cli/namespaces/app.py:119-133 | one dependency keeps the result lists paired with the downloads: at each position k, the export is the one read from the k-th downloaded dependency's manifest in its own checkout, the mount is chosen from that dependency and export, and the destination is that mount in the package directory |
| AppInstall.InstallGroupPaired | libs/cli/langchain_cli/namespaces/app.py:109-133 | the inner loop keeps the result lists paired, when every member of the group has the group's checkout |
| AppInstall.InstallGroupsPaired | libs/cli/langchain_cli/namespaces/app.py:102-133 | the outer loop keeps the result lists paired, when every group holds only dependencies of its own key |
| AppInstall.InstallGroupSettles | libs/cli/langchain_cli/namespaces/app.py:115-129 | after the inner loop, each dependency of the group is settled: its manifest is missing or its mount folder exists |
| AppInstall.InstallGroupsSettles | libs/cli/langchain_cli/namespaces/app.py:102-129 | after the outer loop, every dependency of every group is settled |
| AppInstall.InstallGroupNoop | libs/cli/langchain_cli/namespaces/app.py:115-129 | on a filesystem where every dependency is settled, the inner loop copies nothing and installs nothing |
| AppInstall.InstallGroupsNoop | libs/cli/langchain_cli/namespaces/app.py:102-129 | on such a filesystem, the outer loop copies nothing and installs nothing |
| AppInstall.InstallTwiceInstallsNothing | libs/cli/langchain_cli/namespaces/app.py:124-129 | installing the same groups again onto the filesystem the first run left installs nothing and changes nothing, because of the "already exists" skip, when no manifest is the package directory, lies inside it, or is one of its parent folders |
| AppRoutes.ChainBase | libs/cli/langchain_cli/namespaces/app.py:154 | the definition: the package name with every `-` replaced by `_`, followed by `_chain` |
| AppRoutes.Suffixed | libs/cli/langchain_cli/namespaces/app.py:158 | the definition of a retried candidate: the base, `_`, and the decimal text of i |
| AppRoutes.SuffixedInjective | libs/cli/langchain_cli/namespaces/app.py:158 | a suffixed candidate determines both its base and its number |
| AppRoutes.TriedStep | libs/cli/langchain_cli/namespaces/app.py:157-159 | trying a taken candidate leaves strictly fewer taken names untried, so the dedup loop ends |
| AppRoutes.FreeSuffix | libs/cli/langchain_cli/namespaces/app.py:156-159 | the first suffix from i on whose candidate is not yet a chain name; all suffixes before it are taken |
| AppRoutes.FreeSuffixIsSmallest | libs/cli/langchain_cli/namespaces/app.py:156-159 | any free suffix with all smaller ones taken is the one found |
| AppRoutes.ChainName | libs/cli/langchain_cli/namespaces/app.py:154-159 | the chosen name is never already taken. It is the base when the base is free; otherwise it is `base_n` for the smallest free n ≥ 2 |
| AppRoutes.ChainNamesOf | libs/cli/langchain_cli/namespaces/app.py:152-160 | one chain name per export, and no two chain names are equal |
| AppRoutes.NextChainName | libs/cli/langchain_cli/namespaces/app.py:154-159 | the `while candidate in chain_names` loop ends and yields the specified name |
| AppRoutes.ChainNames | libs/cli/langchain_cli/namespaces/app.py:152-160 | the loop that fills `chain_names` computes one pairwise-distinct name per export |
| AppRoutes.ChainBaseEnd | libs/cli/langchain_cli/namespaces/app.py:154 | a chain base never ends in a digit |
| AppRoutes.Numbered | libs/cli/langchain_cli/namespaces/app.py:155-158 | the c-th name handed out for a base (from 0): the base itself, then `base_2`, `base_3`, ... |
| AppRoutes.NumberedInjective | libs/cli/langchain_cli/namespaces/app.py:154-158 | names numbered from two chain bases are equal only for the same base and the same number |
| AppRoutes.NextNumbered | libs/cli/langchain_cli/namespaces/app.py:156-159 | when the first k numbered names of a base are taken and the next one is not, the loop hands out that next one |
| AppRoutes.Occurrences | libs/cli/langchain_cli/namespaces/app.py:153-154 | how many exports have a given chain base |
| AppRoutes.NumberedName | libs/cli/langchain_cli/namespaces/app.py:152-160 | the reference name of export j: its base numbered by the count of earlier exports with that base |
| AppRoutes.OccurrencesMonotone | libs/cli/langchain_cli/namespaces/app.py:153-160 | a prefix of the exports holds no more occurrences of a base than the whole |
| AppRoutes.OccurrenceAt | libs/cli/langchain_cli/namespaces/app.py:153-160 | every count below the number of occurrences of a base is reached at some export with that base |
| AppRoutes.EarlierCountBelow | libs/cli/langchain_cli/namespaces/app.py:152-160 | counting export i among the exports with its base leaves fewer before it than in the whole list |
| AppRoutes.EarlierNameDiffers | libs/cli/langchain_cli/namespaces/app.py:152-160 | no earlier export's numbered name equals the next numbered name of any base |
| AppRoutes.NumberedTaken | libs/cli/langchain_cli/namespaces/app.py:152-160 | before an export, the names already chosen hold exactly the first k numbered names of its base, where k counts the earlier exports with that base |
| AppRoutes.ChainNamesNumbering | libs/cli/langchain_cli/namespaces/app.py:152-160 | the name of export j is its base when no earlier export shares the base, and otherwise the base with `_(c+1)`, where c counts the earlier exports sharing it; a repeated package gets `_2`, then `_3`, whatever other packages come in between |
| AppRoutes.ApiPath | libs/cli/langchain_cli/namespaces/app.py:162-165 | the API path starts with `/`, and joining the rest onto the package directory gives back the destination |
| AppRoutes.ImportLine | libs/cli/langchain_cli/namespaces/app.py:167-170 | the definition: `from <module> import <attr> as <name>` |
| AppRoutes.RouteLine | libs/cli/langchain_cli/namespaces/app.py:171-174 | the definition: `add_routes(app, <name>, path="<path>")` |
| AppRoutes.RouteMessage | libs/cli/langchain_cli/namespaces/app.py:176-183 | the definition of the echoed block: an empty line, the greeting with the opening fence, the imports, an empty line, the routes and the closing fence, joined by newlines |
| AppRoutes.GenerateRouteCode | libs/cli/langchain_cli/namespaces/app.py:152-174 | the chain names are the specified distinct ones, with one API path per destination. There is one import line per export (`zip` of exports and names), and as many route lines as the shorter of names and paths; import i combines export i and name i, route i combines name i and path i |
| AppAdd.NothingInstalledMessage | libs/cli/langchain_cli/namespaces/app.py:136 | the exit text `No packages installed. Exiting.` |
| AppAdd.EchoLines | libs/cli/langchain_cli/namespaces/app.py:102-133 | the `typer.echo` lines of the install loop: one line per trace event, in trace order, each rendered by EchoLine |
| AppAdd.EchoLinesNotExit | libs/cli/langchain_cli/namespaces/app.py:102-136 | no line echoed while installing equals the exit message |
| AppAdd.RouteMessageNotExit | libs/cli/langchain_cli/namespaces/app.py:136-183 | the route-code block is never the exit message |
| AppAdd.GroupMapKeys | libs/cli/langchain_cli/namespaces/app.py:92-97 | every group key has a group, and a group holds only input dependencies of its key |
| AppAdd.AddTrace | libs/cli/langchain_cli/namespaces/app.py:92-131 | over the whole command, one fetch per distinct (git, ref) in first-seen order. Every requested dependency is reported exactly once (as a multiset), after its own fetch |
| AppAdd.AddPaired | libs/cli/langchain_cli/namespaces/app.py:99-174 | after the install, position k of `installed_destination_paths` and of `installed_exports` belongs to the same (k-th downloaded) dependency, which is what the positional `zip`s of the route code rely on |
| AppAdd.RouteCodeFor | libs/cli/langchain_cli/namespaces/app.py:152-183 | the definition of correct route code for the installed templates: the deduplicated names, a round-tripping `/`-rooted path per destination, and import and route lines aligned by position |
| AppAdd.Conclude | libs/cli/langchain_cli/namespaces/app.py:135-183 | after the install loop: the exit message is printed exactly when nothing was installed, and is then the last line; route code exists exactly when something was installed and the user agreed, and is then the correct route code, echoed as the route block; with no route code and something installed, only the install lines are echoed |
| AppAdd.Add | libs/cli/langchain_cli/namespaces/app.py:91-183 | the whole command: the run is the install of the first-seen groups; one fetch per distinct key and every dependency handled once under its fetch; result lists paired position by position with the downloaded dependencies, holding new, distinct destinations; the exit message is printed exactly when nothing was installed (and alone when there are no dependencies); route code exists exactly when something was installed and the user agreed, and then has one aligned, distinct-named, round-tripping entry per installed template |
| AppAdd.AddTwiceInstallsNothing | libs/cli/langchain_cli/namespaces/app.py:124-129 | running `add` again with the same dependencies on the resulting filesystem installs nothing and changes nothing, when no manifest lies in, inside or above the package directory |

## Left out

- Typer prompts: `typer.confirm("Run it?")`, the printed `pip install -e` hint, and the `subprocess.run` of pip (app.py:139-149). They depend on the working directory and on running an external program; the model's output goes straight from the install trace to the route-code block.
- `parse_dependencies`, `get_package_root`, `create_events` telemetry and the `new`, `remove` and `serve` commands are not part of this model. The dependency list and the package directory are inputs.
- `update_repo` and `get_langserve_export` are opaque function parameters. Their bodies, their cache writes under the repository directory, and the failures they can raise (a failed fetch, a manifest without `[tool.langserve]` fields) are not modelled. In particular, the checkout that `update_repo` returns must already be in the starting filesystem for its manifest to be found.
- `copy_repo` is modelled as creating the destination, its missing parent folders, and a mirror of every path under the source. Its ignore patterns (`.git`) and file contents are not modelled.
- Paths are plain strings, and `a / b` is `a + "/" + b`. pathlib normalisation is not modelled: an absolute `api_path` replacing the base, `..` components, trailing slashes, symlinks. Neither is the distinction between a file and a folder in `exists()`.
- AppRoutes.GenerateRouteCode: requires every destination to lie inside the package directory, where `relative_to` would raise otherwise. The install loop guarantees this (`AppInstall.Install`), so the raising path is unreachable from `add`.
- AppInstall.InstallTwiceInstallsNothing: requires that no manifest is the package directory, lies inside it, or is one of its parent folders, for the reason given for AppAdd.AddTwiceInstallsNothing on the next line.
- AppAdd.AddTwiceInstallsNothing: requires that no manifest is the package directory, lies inside it, or is one of its parent folders. Checkouts live in the repository cache, away from the package directory. Without the requirement, a first copy could create a manifest that a skipped dependency would find on the second run.
- `format_docs` receives each document as its `page_content` string. The Wikipedia loader, the prompt pulled from the hub and the Anthropic model that make up the rest of the template's chain are not part of this model.
