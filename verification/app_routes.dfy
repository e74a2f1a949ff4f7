/** Route-code generation at the end of `langchain app add`: a chain name per
    installed export that no other name of the run repeats, a `/`-rooted API path
    per destination, and the import and `add_routes` lines built from them. */
module AppRoutes {
  import opened Strings
  import opened Sequences
  import opened AppInstall

  /** `f'{package_name.replace("-", "_")}_chain'` */
  function ChainBase(packageName: string): string
  {
    ReplaceChar(packageName, '-', '_') + "_chain"
  }

  /** `original_candidate + "_" + str(i)` */
  function Suffixed(base: string, i: nat): string
  {
    base + "_" + NatToString(i)
  }

  /** A suffixed name determines both its base and its number: the number is
      the run of digits after the last `_`. */
  lemma SuffixedInjective(b1: string, i: nat, b2: string, j: nat)
    ensures Suffixed(b1, i) == Suffixed(b2, j) ==> b1 == b2 && i == j
  {
    if Suffixed(b1, i) == Suffixed(b2, j) {
      var s, x, y := Suffixed(b1, i), NatToString(i), NatToString(j);
      assert s == (b1 + "_") + x && s == (b2 + "_") + y;
      TrailingDigitsOf(b1 + "_", x);
      TrailingDigitsOf(b2 + "_", y);
      assert x == s[|s| - |x|..] == y;
      NatToStringInjective(i, j);
      assert b1 == s[..|b1|] == b2;
    }
  }

  /** The suffixed candidates the loop has tried before reaching suffix i. */
  ghost function Tried(base: string, i: nat): set<string>
  {
    set j | 2 <= j < i :: Suffixed(base, j)
  }

  /** Trying a taken candidate leaves fewer taken names untried. */
  lemma TriedStep(base: string, taken: set<string>, i: nat)
    requires i >= 2 && Suffixed(base, i) in taken
    ensures |taken - Tried(base, i + 1)| < |taken - Tried(base, i)|
  {
    assert Tried(base, i + 1) == Tried(base, i) + {Suffixed(base, i)};
    forall j | 2 <= j < i ensures Suffixed(base, j) != Suffixed(base, i) {
      SuffixedInjective(base, i, base, j);
    }
    assert Suffixed(base, i) !in Tried(base, i);
    assert taken - Tried(base, i) == (taken - Tried(base, i + 1)) + {Suffixed(base, i)};
  }

  /** The smallest suffix number from i on whose candidate is not taken. */
  function FreeSuffix(base: string, taken: set<string>, i: nat): (n: nat)
    requires i >= 2
    ensures n >= i && Suffixed(base, n) !in taken
    ensures forall j :: i <= j < n ==> Suffixed(base, j) in taken
    decreases |taken - Tried(base, i)|
  {
    if Suffixed(base, i) !in taken then i
    else
      TriedStep(base, taken, i);
      FreeSuffix(base, taken, i + 1)
  }

  /** Whatever search finds the smallest free suffix finds the same one. */
  lemma FreeSuffixIsSmallest(base: string, taken: set<string>, lo: nat, n: nat)
    requires 2 <= lo <= n && Suffixed(base, n) !in taken
    requires forall j :: lo <= j < n ==> Suffixed(base, j) in taken
    ensures FreeSuffix(base, taken, lo) == n
  {
  }

  /** The name the `while candidate in chain_names` loop settles on for `base`:
      `base` itself when free, else `base_i` for the smallest i >= 2 that is free. */
  function ChainName(base: string, taken: seq<string>): (name: string)
    ensures name !in taken
    ensures base !in taken ==> name == base
    ensures base in taken ==>
      exists n :: n >= 2 && name == Suffixed(base, n) && forall j :: 2 <= j < n ==> Suffixed(base, j) in taken
  {
    if base !in taken then base
    else
      var n := FreeSuffix(base, set x | x in taken, 2);
      assert forall j :: 2 <= j < n ==> Suffixed(base, j) in taken;
      Suffixed(base, n)
  }

  /** One chain name per export, each chosen against the names before it; no two are equal. */
  function ChainNamesOf(exports: seq<Export>): (names: seq<string>)
    ensures |names| == |exports|
    ensures forall i, j :: 0 <= i < j < |names| ==> names[i] != names[j]
  {
    if exports == [] then []
    else
      var prev := ChainNamesOf(exports[..|exports| - 1]);
      prev + [ChainName(ChainBase(exports[|exports| - 1].packageName), prev)]
  }

  /** The `while candidate in chain_names` loop for one export: it tries `base`,
      then `base_2`, `base_3`, ... and stops at the first name not yet chosen. */
  method NextChainName(originalCandidate: string, chainNames: seq<string>) returns (candidate: string)
    ensures candidate == ChainName(originalCandidate, chainNames)
  {
    candidate := originalCandidate;
    var i: nat := 2;
    ghost var taken := set x | x in chainNames;
    while candidate in chainNames
      invariant i >= 2
      invariant i == 2 ==> candidate == originalCandidate
      invariant i > 2 ==> candidate == Suffixed(originalCandidate, i - 1) && originalCandidate in chainNames
      invariant forall j :: 2 <= j < i - 1 ==> Suffixed(originalCandidate, j) in chainNames
      decreases |taken - Tried(originalCandidate, i - 1)|, if i == 2 then 1 else 0
    {
      ghost var tried := candidate;
      assert tried in taken;
      if i > 2 {
        TriedStep(originalCandidate, taken, i - 1);
      } else {
        assert Tried(originalCandidate, i - 1) == Tried(originalCandidate, i) == {};
      }
      candidate := Suffixed(originalCandidate, i);
      i := i + 1;
      forall j | 2 <= j < i - 1
        ensures Suffixed(originalCandidate, j) in chainNames
      {
        if j == i - 2 {
          assert Suffixed(originalCandidate, j) == tried;
        }
      }
    }
    if i > 2 {
      assert forall j :: 2 <= j < i - 1 ==> Suffixed(originalCandidate, j) in taken;
      FreeSuffixIsSmallest(originalCandidate, taken, 2, i - 1);
    }
  }

  /** The loop that fills `chain_names`, one name per installed export. */
  method ChainNames(exports: seq<Export>) returns (chainNames: seq<string>)
    ensures chainNames == ChainNamesOf(exports)
  {
    chainNames := [];
    for n := 0 to |exports|
      invariant chainNames == ChainNamesOf(exports[..n])
    {
      PrefixSnoc(exports, n);
      var e := exports[n];
      var candidate := NextChainName(ChainBase(e.packageName), chainNames);
      chainNames := chainNames + [candidate];
    }
    assert exports[..|exports|] == exports;
  }

  /** The c-th name (from 0) handed out for `base`: `base`, then `base_2`, `base_3`, ... */
  function Numbered(base: string, c: nat): string
  {
    if c == 0 then base else Suffixed(base, c + 1)
  }

  /** A chain base ends in `_chain`, so never in a digit. */
  lemma ChainBaseEnd(packageName: string)
    ensures |ChainBase(packageName)| >= 1 && !IsDigit(ChainBase(packageName)[|ChainBase(packageName)| - 1])
  {
  }

  /** Names numbered from two chain bases coincide only for the same base and number:
      an unsuffixed base ends in a letter, a suffixed one in a digit. */
  lemma NumberedInjective(p1: string, c1: nat, p2: string, c2: nat)
    ensures Numbered(ChainBase(p1), c1) == Numbered(ChainBase(p2), c2) ==>
      ChainBase(p1) == ChainBase(p2) && c1 == c2
  {
    var b1, b2 := ChainBase(p1), ChainBase(p2);
    ChainBaseEnd(p1);
    ChainBaseEnd(p2);
    if c1 > 0 {
      var x := NatToString(c1 + 1);
      assert Suffixed(b1, c1 + 1)[|Suffixed(b1, c1 + 1)| - 1] == x[|x| - 1];
    }
    if c2 > 0 {
      var y := NatToString(c2 + 1);
      assert Suffixed(b2, c2 + 1)[|Suffixed(b2, c2 + 1)| - 1] == y[|y| - 1];
    }
    if c1 > 0 && c2 > 0 {
      SuffixedInjective(b1, c1 + 1, b2, c2 + 1);
    }
  }

  /** When `base`, ..., the (k-1)-th numbered name are taken and the k-th is not,
      the dedup loop hands out the k-th. */
  lemma NextNumbered(base: string, taken: seq<string>, k: nat)
    requires forall c :: 0 <= c < k ==> Numbered(base, c) in taken
    requires Numbered(base, k) !in taken
    ensures ChainName(base, taken) == Numbered(base, k)
  {
    if k > 0 {
      assert Numbered(base, 0) in taken;
      var takenSet := set x | x in taken;
      forall j | 2 <= j < k + 1 ensures Suffixed(base, j) in takenSet {
        assert Numbered(base, j - 1) in taken;
      }
      FreeSuffixIsSmallest(base, takenSet, 2, k + 1);
    }
  }

  function BaseAt(exports: seq<Export>, j: nat): string
    requires j < |exports|
  {
    ChainBase(exports[j].packageName)
  }

  /** How many exports have chain base `base`. */
  function Occurrences(exports: seq<Export>, base: string): nat
  {
    if exports == [] then 0
    else Occurrences(exports[..|exports| - 1], base) + (if BaseAt(exports, |exports| - 1) == base then 1 else 0)
  }

  lemma {:induction false} OccurrencesMonotone(exports: seq<Export>, n: nat, base: string)
    requires n <= |exports|
    ensures Occurrences(exports[..n], base) <= Occurrences(exports, base)
  {
    if n < |exports| {
      var init := exports[..|exports| - 1];
      assert init[..n] == exports[..n];
      OccurrencesMonotone(init, n, base);
    } else {
      assert exports[..n] == exports;
    }
  }

  /** Every count below the number of occurrences of `base` is reached at some
      export with that base. */
  lemma {:induction false} OccurrenceAt(exports: seq<Export>, base: string, c: nat)
    requires c < Occurrences(exports, base)
    ensures exists i :: 0 <= i < |exports| && BaseAt(exports, i) == base && Occurrences(exports[..i], base) == c
  {
    var n := |exports| - 1;
    var init := exports[..n];
    if c < Occurrences(init, base) {
      OccurrenceAt(init, base, c);
      var i :| 0 <= i < |init| && BaseAt(init, i) == base && Occurrences(init[..i], base) == c;
      assert init[..i] == exports[..i];
      assert BaseAt(exports, i) == base;
    } else {
      assert BaseAt(exports, n) == base && Occurrences(exports[..n], base) == c;
    }
  }

  /** The name export j gets: its base numbered by how many earlier exports share it. */
  function NumberedName(exports: seq<Export>, j: nat): string
    requires j < |exports|
  {
    Numbered(BaseAt(exports, j), Occurrences(exports[..j], BaseAt(exports, j)))
  }

  /** Export i's own count of its base is below the count over the whole list. */
  lemma EarlierCountBelow(init: seq<Export>, i: nat)
    requires i < |init|
    ensures Occurrences(init[..i], BaseAt(init, i)) < Occurrences(init, BaseAt(init, i))
  {
    assert init[..i + 1][..i] == init[..i];
    assert Occurrences(init[..i + 1], BaseAt(init, i)) == Occurrences(init[..i], BaseAt(init, i)) + 1;
    OccurrencesMonotone(init, i + 1, BaseAt(init, i));
  }

  /** An earlier export's name is never the next number of another export's base:
      with the same base its count is smaller, with another base the names differ. */
  lemma EarlierNameDiffers(init: seq<Export>, i: nat, packageName: string)
    requires i < |init|
    ensures var base := ChainBase(packageName);
      NumberedName(init, i) != Numbered(base, Occurrences(init, base))
  {
    EarlierCountBelow(init, i);
    var base := ChainBase(packageName);
    NumberedInjective(init[i].packageName, Occurrences(init[..i], BaseAt(init, i)),
                      packageName, Occurrences(init, base));
  }

  /** Before an export of package `packageName`, the names already chosen hold
      exactly the numbered names of its base below its count. */
  lemma NumberedTaken(init: seq<Export>, names: seq<string>, packageName: string)
    requires |names| == |init|
    requires forall j :: 0 <= j < |init| ==> names[j] == NumberedName(init, j)
    ensures var base := ChainBase(packageName);
      && (forall c :: 0 <= c < Occurrences(init, base) ==> Numbered(base, c) in names)
      && Numbered(base, Occurrences(init, base)) !in names
  {
    var base := ChainBase(packageName);
    var k := Occurrences(init, base);
    forall c | 0 <= c < k ensures Numbered(base, c) in names {
      OccurrenceAt(init, base, c);
      var i :| 0 <= i < |init| && BaseAt(init, i) == base && Occurrences(init[..i], base) == c;
      assert names[i] == Numbered(base, c);
    }
    forall i | 0 <= i < |names| ensures names[i] != Numbered(base, k) {
      EarlierNameDiffers(init, i, packageName);
    }
  }

  /** Every chain name is its package's base numbered by how many earlier exports
      share that base: a repeated package gets `_2` on its second occurrence, `_3`
      on its third, whatever other packages come in between. */
  lemma {:induction false} ChainNamesNumbering(exports: seq<Export>)
    ensures forall j :: 0 <= j < |exports| ==> ChainNamesOf(exports)[j] == NumberedName(exports, j)
  {
    if exports != [] {
      var n := |exports| - 1;
      var init := exports[..n];
      var prev := ChainNamesOf(init);
      var base := BaseAt(exports, n);
      assert ChainNamesOf(exports) == prev + [ChainName(base, prev)];
      assert ChainName(base, prev) == NumberedName(exports, n) by {
        ChainNamesNumbering(init);
        NumberedTaken(init, prev, exports[n].packageName);
        NextNumbered(base, prev, Occurrences(init, base));
      }
      forall j | 0 <= j < n ensures prev[j] == NumberedName(exports, j) {
        ChainNamesNumbering(init);
        assert exports[..j] == init[..j];
      }
    }
  }

  /** `str(Path("/") / dest.relative_to(package_dir))` */
  function ApiPath(dest: Path, packageDir: Path): (api: string)
    requires IsUnder(dest, packageDir)
    ensures |api| >= 1 && api[0] == '/' && JoinPath(packageDir, api[1..]) == dest
  {
    "/" + dest[|packageDir| + 1..]
  }

  /** `f"from {e['module']} import {e['attr']} as {name}"` */
  function ImportLine(e: Export, name: string): string
  {
    "from " + e.moduleName + " import " + e.attr + " as " + name
  }

  /** `f'add_routes(app, {name}, path="{path}")'` */
  function RouteLine(name: string, apiPath: string): string
  {
    "add_routes(app, " + name + ", path=\"" + apiPath + "\")"
  }

  function Min(a: nat, b: nat): nat
  {
    if a <= b then a else b
  }

  /** The generated snippets, position by position. */
  datatype RouteCode = RouteCode(chainNames: seq<string>, apiPaths: seq<string>,
                                 imports: seq<string>, routes: seq<string>)

  /** The echoed block that wraps the import and route lines. */
  function RouteMessage(code: RouteCode): string
  {
    Join("\n", ["", "Great! Add the following to your app:\n\n```", ""] + code.imports + [""] + code.routes + ["```"])
  }

  /** The body of `if typer.confirm("Generate route code ...")`: names, paths and
      the two `zip`-built lists of lines. Each `zip` stops at its shorter list: the
      imports pair exports with their names (one per export), the routes pair names
      with API paths (one per position both lists have). */
  method GenerateRouteCode(dests: seq<Path>, exports: seq<Export>, packageDir: Path) returns (code: RouteCode)
    requires forall p :: p in dests ==> IsUnder(p, packageDir)
    ensures code.chainNames == ChainNamesOf(exports)
    ensures |code.apiPaths| == |dests|
    ensures forall i :: 0 <= i < |dests| ==>
      |code.apiPaths[i]| >= 1 && code.apiPaths[i][0] == '/' && JoinPath(packageDir, code.apiPaths[i][1..]) == dests[i]
    ensures |code.imports| == |exports|
    ensures forall i :: 0 <= i < |exports| ==> code.imports[i] == ImportLine(exports[i], code.chainNames[i])
    ensures |code.routes| == Min(|dests|, |exports|)
    ensures forall i :: 0 <= i < |code.routes| ==> code.routes[i] == RouteLine(code.chainNames[i], code.apiPaths[i])
  {
    var chainNames := ChainNames(exports);
    var apiPaths := seq(|dests|, i requires 0 <= i < |dests| => ApiPath(dests[i], packageDir));
    var imports := seq(|exports|, i requires 0 <= i < |exports| => ImportLine(exports[i], chainNames[i]));
    var routes := seq(Min(|chainNames|, |apiPaths|),
                      i requires 0 <= i < Min(|chainNames|, |apiPaths|) => RouteLine(chainNames[i], apiPaths[i]));
    code := RouteCode(chainNames, apiPaths, imports, routes);
  }

}
