// cmd/staticlint/osexitcheck/osexitcheck.go: the analyzer that reports os.Exit in main.
module OsExitCheck {
  import opened Types

  // The parts of go/ast the analyzer looks at. A call's first child is its Fun, a selector's its X.
  datatype Kind =
    | ImportSpec(alias: Option<string>, path: string)
    | FuncDecl(name: string)
    | Call(pos: int)
    | Selector(sel: string)
    | Ident(name: string)
    | Other

  datatype Node = Node(kind: Kind, children: seq<Node>)

  predicate IsOsImport(n: Node) {
    n.kind.ImportSpec? && n.kind.path == "\"os\""
  }

  function AliasOf(n: Node): string
    requires IsOsImport(n)
  {
    if n.kind.alias.None? then "os" else n.kind.alias.value
  }

  predicate IsMain(n: Node) {
    n.kind == FuncDecl("main")
  }

  // pkg.Exit(...)
  predicate IsExit(n: Node, pkg: string) {
    && n.kind.Call? && n.children != []
    && n.children[0].kind == Selector("Exit") && n.children[0].children != []
    && n.children[0].children[0].kind == Ident(pkg)
  }

  // ---- The first traversal: None until os is found, then its alias ----

  function Alias(n: Node, found: Option<string>): Option<string> {
    if IsOsImport(n) then Some(AliasOf(n))
    else if found.Some? then found
    else AliasAll(n.children, found)
  }

  function AliasAll(ns: seq<Node>, found: Option<string>): Option<string> {
    if ns == [] then found else AliasAll(ns[1..], Alias(ns[0], found))
  }

  lemma {:induction false} AliasAppend(ns: seq<Node>, n: Node, found: Option<string>)
    ensures AliasAll(ns + [n], found) == Alias(n, AliasAll(ns, found))
  {
    if ns == [] {
      assert [n][1..] == [];
    } else {
      assert (ns + [n])[1..] == ns[1..] + [n];
      AliasAppend(ns[1..], n, Alias(ns[0], found));
    }
  }

  // ---- The second traversal ----

  // A reported call: the way to it from the root, as child numbers, and its position.
  datatype Site = Site(path: seq<nat>, pos: int)

  function Under(i: nat, sites: seq<Site>): (r: seq<Site>)
    ensures |r| == |sites|
    ensures forall j :: 0 <= j < |r| ==> r[j] == Site([i] + sites[j].path, sites[j].pos)
  {
    seq(|sites|, j requires 0 <= j < |sites| => Site([i] + sites[j].path, sites[j].pos))
  }

  // checkFunc below n: a call is looked at and not entered.
  function ExitSites(n: Node, pkg: string): seq<Site>
    decreases n, |n.children| + 1
  {
    if n.kind.Call? then (if IsExit(n, pkg) then [Site([], n.kind.pos)] else [])
    else ExitSitesFrom(n, 0, pkg)
  }

  function ExitSitesFrom(n: Node, i: nat, pkg: string): seq<Site>
    requires i <= |n.children|
    decreases n, |n.children| - i
  {
    if i == |n.children| then []
    else Under(i, ExitSites(n.children[i], pkg)) + ExitSitesFrom(n, i + 1, pkg)
  }

  // The functions named main below n.
  function MainSites(n: Node, pkg: string): seq<Site>
    decreases n, |n.children| + 1
  {
    if IsMain(n) then ExitSites(n, pkg) else MainSitesFrom(n, 0, pkg)
  }

  function MainSitesFrom(n: Node, i: nat, pkg: string): seq<Site>
    requires i <= |n.children|
    decreases n, |n.children| - i
  {
    if i == |n.children| then []
    else Under(i, MainSites(n.children[i], pkg)) + MainSitesFrom(n, i + 1, pkg)
  }

  function Positions(sites: seq<Site>): (r: seq<int>)
    ensures |r| == |sites| && forall i :: 0 <= i < |r| ==> r[i] == sites[i].pos
  {
    seq(|sites|, i requires 0 <= i < |sites| => sites[i].pos)
  }

  function PackagePositions(files: seq<Node>, pkg: string): seq<int> {
    if files == [] then [] else Positions(MainSites(files[0], pkg)) + PackagePositions(files[1..], pkg)
  }

  // A package is a node over its files, so that a path into it starts with the number of a file.
  function Package(files: seq<Node>): Node {
    Node(Other, files)
  }

  function Reported(packageName: string, files: seq<Node>): seq<Site> {
    if packageName != "main" then []
    else
      match AliasAll(files, None)
      case None => []
      case Some(pkg) => MainSites(Package(files), pkg)
  }

  class Checker {
    var pkgName: string
    var osImported: bool
    var reports: seq<int>

    constructor ()
      ensures pkgName == "" && !osImported && reports == []
    {
      pkgName, osImported, reports := "", false, [];
    }

    function Found(): Option<string>
      reads this
    {
      if osImported then Some(pkgName) else None
    }

    // ast.Inspect with the closure that looks for the import of os.
    method InspectImports(n: Node)
      modifies this`pkgName, this`osImported
      ensures Found() == Alias(n, old(Found()))
      decreases n
    {
      if IsOsImport(n) {
        pkgName := if n.kind.alias.None? then "os" else n.kind.alias.value;
        osImported := true;
        return;
      }
      if osImported {
        return;
      }
      for i := 0 to |n.children|
        invariant Found() == AliasAll(n.children[..i], old(Found()))
      {
        InspectImports(n.children[i]);
        AliasAppend(n.children[..i], n.children[i], old(Found()));
        assert n.children[..i + 1] == n.children[..i] + [n.children[i]];
      }
      assert n.children[..|n.children|] == n.children;
    }

    // ast.Inspect with checkFunc.
    method InspectCalls(n: Node)
      modifies this`reports
      ensures reports == old(reports) + Positions(ExitSites(n, pkgName))
      decreases n
    {
      if n.kind.Call? {
        if IsExit(n, pkgName) {
          reports := reports + [n.kind.pos];
        }
        return;
      }
      for i := 0 to |n.children|
        invariant reports + Positions(ExitSitesFrom(n, i, pkgName)) == old(reports) + Positions(ExitSites(n, pkgName))
      {
        PositionsUnder(reports, i, ExitSites(n.children[i], pkgName), ExitSitesFrom(n, i + 1, pkgName));
        InspectCalls(n.children[i]);
      }
    }

    // ast.Inspect with the closure that looks for functions named main.
    method InspectDecls(n: Node)
      modifies this`reports
      ensures reports == old(reports) + Positions(MainSites(n, pkgName))
      decreases n
    {
      if IsMain(n) {
        InspectCalls(n);
        return;
      }
      for i := 0 to |n.children|
        invariant reports + Positions(MainSitesFrom(n, i, pkgName)) == old(reports) + Positions(MainSites(n, pkgName))
      {
        PositionsUnder(reports, i, MainSites(n.children[i], pkgName), MainSitesFrom(n, i + 1, pkgName));
        InspectDecls(n.children[i]);
      }
    }

    method FindAlias(files: seq<Node>)
      requires !osImported
      modifies this`pkgName, this`osImported
      ensures Found() == AliasAll(files, None)
    {
      for i := 0 to |files|
        invariant Found() == AliasAll(files[..i], None)
      {
        InspectImports(files[i]);
        AliasAppend(files[..i], files[i], None);
        assert files[..i + 1] == files[..i] + [files[i]];
      }
      assert files[..|files|] == files;
    }

    method ReportCalls(files: seq<Node>)
      modifies this`reports
      ensures reports == old(reports) + PackagePositions(files, pkgName)
    {
      for i := 0 to |files|
        invariant reports + PackagePositions(files[i..], pkgName) == old(reports) + PackagePositions(files, pkgName)
      {
        ghost var sofar := reports;
        InspectDecls(files[i]);
        PackageStep(sofar, files[i..], pkgName);
        assert files[i..][1..] == files[i + 1..];
      }
    }

    method Run(packageName: string, files: seq<Node>)
      requires pkgName == "" && !osImported && reports == []
      modifies this
      ensures reports == Positions(Reported(packageName, files))
    {
      PackageIsTree(files);
      if packageName != "main" {
        return;
      }
      FindAlias(files);
      if !osImported {
        return;
      }
      ReportCalls(files);
    }
  }

  lemma PositionsUnder(before: seq<int>, i: nat, sites: seq<Site>, rest: seq<Site>)
    ensures before + Positions(Under(i, sites) + rest) == (before + Positions(sites)) + Positions(rest)
  {
  }

  lemma PackageStep(before: seq<int>, files: seq<Node>, pkg: string)
    requires files != []
    ensures before + PackagePositions(files, pkg) ==
            (before + Positions(MainSites(files[0], pkg))) + PackagePositions(files[1..], pkg)
  {
  }

  lemma {:induction false} PackageIsTreeFrom(files: seq<Node>, i: nat, pkg: string)
    requires i <= |files|
    ensures Positions(MainSitesFrom(Package(files), i, pkg)) == PackagePositions(files[i..], pkg)
    decreases |files| - i
  {
    if i == |files| {
      assert files[i..] == [];
    } else {
      PackageIsTreeFrom(files, i + 1, pkg);
      assert files[i..][0] == files[i] && files[i..][1..] == files[i + 1..];
      PositionsUnder([], i, MainSites(files[i], pkg), MainSitesFrom(Package(files), i + 1, pkg));
    }
  }

  lemma PackageIsTree(files: seq<Node>)
    ensures forall pkg :: PackagePositions(files, pkg) == Positions(MainSites(Package(files), pkg))
  {
    forall pkg ensures PackagePositions(files, pkg) == Positions(MainSites(Package(files), pkg)) {
      PackageIsTreeFrom(files, 0, pkg);
      assert files[0..] == files;
    }
  }

  // ---- Which alias ----

  // No import of os anywhere in n.
  predicate NoOs(n: Node) {
    !IsOsImport(n) && forall i :: 0 <= i < |n.children| ==> NoOs(n.children[i])
  }

  // As the grammar has it, import specs are children of declarations, which are children of files.
  predicate GoodDecl(d: Node) {
    !IsOsImport(d) && forall i :: 0 <= i < |d.children| ==> IsOsImport(d.children[i]) || NoOs(d.children[i])
  }

  predicate GoodFile(f: Node) {
    !IsOsImport(f) && forall i :: 0 <= i < |f.children| ==> GoodDecl(f.children[i])
  }

  predicate GoodFiles(files: seq<Node>) {
    forall i :: 0 <= i < |files| ==> GoodFile(files[i])
  }

  // n is a declaration with an import of os among its specs.
  predicate ImportsOs(d: Node) {
    exists i :: 0 <= i < |d.children| && IsOsImport(d.children[i])
  }

  predicate FileImportsOs(f: Node) {
    exists i :: 0 <= i < |f.children| && ImportsOs(f.children[i])
  }

  lemma {:induction false} NoOsAlias(n: Node, found: Option<string>)
    requires NoOs(n)
    ensures Alias(n, found) == found
    decreases n
  {
    if found.None? {
      assert NoOs(n);
      NoneAll(n, 0);
    }
  }

  lemma {:induction false} NoneAll(n: Node, i: nat)
    requires NoOs(n) && i <= |n.children|
    ensures AliasAll(n.children[i..], None) == None
    decreases n, |n.children| - i
  {
    if i == |n.children| {
    } else {
      assert NoOs(n.children[i]);
      NoOsAlias(n.children[i], None);
      NoneAll(n, i + 1);
      assert n.children[i..][1..] == n.children[i + 1..];
    }
  }

  // i is the last import of os among ns.
  predicate IsLastSpec(ns: seq<Node>, i: nat) {
    i < |ns| && IsOsImport(ns[i]) && forall j :: i < j < |ns| ==> !IsOsImport(ns[j])
  }

  // Among the specs of one declaration the last import of os counts.
  lemma {:induction false} LastSpec(ns: seq<Node>, found: Option<string>, i: nat)
    requires forall j :: 0 <= j < |ns| ==> IsOsImport(ns[j]) || NoOs(ns[j])
    requires IsLastSpec(ns, i)
    ensures AliasAll(ns, found) == Some(AliasOf(ns[i]))
    decreases i
  {
    if i == 0 {
      NoSpec(ns[1..], Alias(ns[0], found));
    } else {
      LastSpec(ns[1..], Alias(ns[0], found), i - 1);
    }
  }

  lemma {:induction false} NoSpec(ns: seq<Node>, found: Option<string>)
    requires forall j :: 0 <= j < |ns| ==> NoOs(ns[j])
    ensures AliasAll(ns, found) == found
  {
    if ns == [] {
    } else {
      NoOsAlias(ns[0], found);
      NoSpec(ns[1..], found);
    }
  }

  // Across declarations, and across files, the first one that imports os counts.
  lemma {:induction false} FirstCounts(ns: seq<Node>, i: nat)
    requires i < |ns| && forall j :: 0 <= j < |ns| ==> !IsOsImport(ns[j])
    requires forall j :: 0 <= j < i ==> Alias(ns[j], None) == None
    requires Alias(ns[i], None).Some?
    ensures AliasAll(ns, None) == Alias(ns[i], None)
    decreases i
  {
    if i == 0 {
      FoundStays(ns[1..], Alias(ns[0], None));
    } else {
      FirstCounts(ns[1..], i - 1);
    }
  }

  lemma {:induction false} FoundStays(ns: seq<Node>, found: Option<string>)
    requires found.Some? && forall j :: 0 <= j < |ns| ==> !IsOsImport(ns[j])
    ensures AliasAll(ns, found) == found
  {
    if ns == [] {
    } else {
      FoundStays(ns[1..], found);
    }
  }

  lemma {:induction false} NoneFound(ns: seq<Node>)
    requires forall j :: 0 <= j < |ns| ==> Alias(ns[j], None) == None
    ensures AliasAll(ns, None) == None
  {
    if ns == [] {
    } else {
      NoneFound(ns[1..]);
    }
  }

  lemma DeclAlias(d: Node)
    requires GoodDecl(d)
    ensures Alias(d, None).Some? <==> ImportsOs(d)
    ensures forall s: nat :: IsLastSpec(d.children, s) ==> Alias(d, None) == Some(AliasOf(d.children[s]))
  {
    forall s: nat | IsLastSpec(d.children, s) ensures Alias(d, None) == Some(AliasOf(d.children[s])) {
      LastSpec(d.children, None, s);
    }
    if ImportsOs(d) {
      var i :| 0 <= i < |d.children| && IsOsImport(d.children[i]);
      var s := LastFrom(d.children, i);
      assert IsLastSpec(d.children, s);
    } else {
      NoSpec(d.children, None);
    }
  }

  lemma LastFrom(ns: seq<Node>, i: nat) returns (s: nat)
    requires i < |ns| && IsOsImport(ns[i])
    ensures IsLastSpec(ns, s)
  {
    s := i;
    for j := i + 1 to |ns|
      invariant i <= s < j <= |ns| && IsOsImport(ns[s])
      invariant forall m :: s < m < j ==> !IsOsImport(ns[m])
    {
      if IsOsImport(ns[j]) { s := j; }
    }
  }

  lemma FileAlias(f: Node)
    requires GoodFile(f)
    ensures Alias(f, None).Some? <==> FileImportsOs(f)
    ensures forall d: nat :: IsFirst(f.children, d, ImportsOs) ==> Alias(f, None) == Alias(f.children[d], None)
  {
    forall d | 0 <= d < |f.children| ensures Alias(f.children[d], None).Some? <==> ImportsOs(f.children[d]) {
      DeclAlias(f.children[d]);
    }
    forall d: nat | IsFirst(f.children, d, ImportsOs) ensures Alias(f, None) == Alias(f.children[d], None) {
      FirstCounts(f.children, d);
    }
    if FileImportsOs(f) {
      var d := FirstOf(f.children, ImportsOs);
      FirstCounts(f.children, d);
    } else {
      NoneFound(f.children);
    }
  }

  predicate IsFirst(ns: seq<Node>, i: nat, p: Node -> bool) {
    i < |ns| && p(ns[i]) && forall j :: 0 <= j < i ==> !p(ns[j])
  }

  lemma FirstOf(ns: seq<Node>, p: Node -> bool) returns (i: nat)
    requires exists j :: 0 <= j < |ns| && p(ns[j])
    ensures IsFirst(ns, i, p)
  {
    i := 0;
    while !p(ns[i])
      invariant i < |ns| && forall j :: 0 <= j < i ==> !p(ns[j])
      invariant exists j :: i <= j < |ns| && p(ns[j])
      decreases |ns| - i
    {
      i := i + 1;
    }
  }

  lemma FilesAlias(files: seq<Node>)
    requires GoodFiles(files)
    ensures forall f :: 0 <= f < |files| ==> (Alias(files[f], None).Some? <==> FileImportsOs(files[f]))
  {
    forall f | 0 <= f < |files| ensures Alias(files[f], None).Some? <==> FileImportsOs(files[f]) {
      FileAlias(files[f]);
    }
  }

  // Nothing is reported when no file imports os.
  lemma WhetherAlias(files: seq<Node>)
    requires GoodFiles(files)
    ensures AliasAll(files, None).Some? <==> exists f :: 0 <= f < |files| && FileImportsOs(files[f])
  {
    FilesAlias(files);
    if exists f :: 0 <= f < |files| && FileImportsOs(files[f]) {
      var f := FirstOf(files, FileImportsOs);
      FirstCounts(files, f);
    } else {
      NoneFound(files);
    }
  }

  // The alias is the name, or os when none is given, of the last spec for os in the first declaration that
  // has one, in the first file that has one.
  lemma WhichAlias(files: seq<Node>, f: nat, d: nat, s: nat)
    requires GoodFiles(files) && IsFirst(files, f, FileImportsOs)
    requires IsFirst(files[f].children, d, ImportsOs) && IsLastSpec(files[f].children[d].children, s)
    ensures var spec := files[f].children[d].children[s].kind;
            && spec.ImportSpec? && spec.path == "\"os\""
            && AliasAll(files, None) == Some(match spec.alias case None => "os" case Some(name) => name)
  {
    FilesAlias(files);
    FirstCounts(files, f);
    FileAlias(files[f]);
    DeclAlias(files[f].children[d]);
  }

  // ---- Which calls ----

  function At(n: Node, path: seq<nat>): Option<Node>
    decreases |path|
  {
    if path == [] then Some(n)
    else if path[0] < |n.children| then At(n.children[path[0]], path[1..])
    else None
  }

  // No node on the way from n to path, the last excluded, is a call.
  predicate InNoCall(n: Node, path: seq<nat>)
    decreases |path|
  {
    path == [] || (!n.kind.Call? && path[0] < |n.children| && InNoCall(n.children[path[0]], path[1..]))
  }

  // The node at path is pkg.Exit(...) at pos and lies in no other call below n.
  predicate IsSite(n: Node, pkg: string, s: Site) {
    match At(n, s.path)
    case Some(m) => IsExit(m, pkg) && m.kind.pos == s.pos && InNoCall(n, s.path)
    case None => false
  }

  lemma UnderSites(i: nat, sites: seq<Site>, s: Site)
    ensures s in Under(i, sites) <==> s.path != [] && s.path[0] == i && Site(s.path[1..], s.pos) in sites
  {
    if s.path != [] && s.path[0] == i && Site(s.path[1..], s.pos) in sites {
      var j :| 0 <= j < |sites| && sites[j] == Site(s.path[1..], s.pos);
      assert [i] + s.path[1..] == s.path;
      assert Under(i, sites)[j] == s;
    }
    if s in Under(i, sites) {
      var j :| 0 <= j < |sites| && Under(i, sites)[j] == s;
      assert s.path[1..] == sites[j].path;
    }
  }

  lemma {:induction false} ExitSitesExact(n: Node, pkg: string, s: Site)
    ensures s in ExitSites(n, pkg) <==> IsSite(n, pkg, s)
    decreases n, |n.children| + 1
  {
    if !n.kind.Call? {
      ExitSitesFromExact(n, 0, pkg, s);
    }
  }

  lemma {:induction false} ExitSitesFromExact(n: Node, i: nat, pkg: string, s: Site)
    requires i <= |n.children| && !n.kind.Call?
    ensures s in ExitSitesFrom(n, i, pkg) <==> s.path != [] && s.path[0] >= i && IsSite(n, pkg, s)
    decreases n, |n.children| - i
  {
    if i == |n.children| {
    } else {
      UnderSites(i, ExitSites(n.children[i], pkg), s);
      if s.path != [] { ExitSitesExact(n.children[i], pkg, Site(s.path[1..], s.pos)); }
      ExitSitesFromExact(n, i + 1, pkg, s);
    }
  }

  predicate Distinct(sites: seq<Site>) {
    forall i, j :: 0 <= i < j < |sites| ==> sites[i].path != sites[j].path
  }

  lemma FirstApart(first: seq<Site>, rest: seq<Site>, i: nat)
    requires Distinct(first) && Distinct(rest)
    requires forall s :: s in first ==> s.path != [] && s.path[0] == i
    requires forall s :: s in rest ==> s.path != [] && s.path[0] > i
    ensures Distinct(first + rest)
  {
    forall j, k | 0 <= j < k < |first + rest| ensures (first + rest)[j].path != (first + rest)[k].path {
      if j < |first| <= k { assert first[j] in first && rest[k - |first|] in rest; }
    }
  }

  lemma {:induction false} ExitSitesDistinct(n: Node, pkg: string)
    ensures Distinct(ExitSites(n, pkg))
    decreases n, |n.children| + 1
  {
    if !n.kind.Call? { ExitSitesFromDistinct(n, 0, pkg); }
  }

  lemma {:induction false} ExitSitesFromDistinct(n: Node, i: nat, pkg: string)
    requires i <= |n.children| && !n.kind.Call?
    ensures Distinct(ExitSitesFrom(n, i, pkg))
    decreases n, |n.children| - i
  {
    if i == |n.children| {
    } else {
      var first, rest := Under(i, ExitSites(n.children[i], pkg)), ExitSitesFrom(n, i + 1, pkg);
      ExitSitesDistinct(n.children[i], pkg);
      ExitSitesFromDistinct(n, i + 1, pkg);
      forall s ensures s in rest ==> s.path != [] && s.path[0] > i {
        ExitSitesFromExact(n, i + 1, pkg, s);
      }
      UnderDistinct(i, ExitSites(n.children[i], pkg));
      FirstApart(first, rest, i);
    }
  }

  lemma UnderDistinct(i: nat, sites: seq<Site>)
    requires Distinct(sites)
    ensures Distinct(Under(i, sites))
  {
    forall j, k | 0 <= j < k < |sites| ensures Under(i, sites)[j].path != Under(i, sites)[k].path {
      assert Under(i, sites)[j].path[1..] == sites[j].path;
      assert Under(i, sites)[k].path[1..] == sites[k].path;
    }
  }

  predicate NoMain(n: Node) {
    !IsMain(n) && forall i :: 0 <= i < |n.children| ==> NoMain(n.children[i])
  }

  // Functions are declared at the top level of a file only.
  predicate TopLevelFuncs(f: Node) {
    !IsMain(f) && forall i :: 0 <= i < |f.children| ==> IsMain(f.children[i]) || NoMain(f.children[i])
  }

  lemma {:induction false} NoMainNoSites(n: Node, pkg: string, i: nat)
    requires NoMain(n) && i <= |n.children|
    ensures MainSitesFrom(n, i, pkg) == [] && MainSites(n, pkg) == MainSitesFrom(n, 0, pkg)
    decreases n, |n.children| - i
  {
    if i == |n.children| {
    } else {
      NoMainNoSites(n.children[i], pkg, 0);
      NoMainNoSites(n, pkg, i + 1);
      assert MainSites(n.children[i], pkg) == [];
    }
  }

  // In a Go file exactly those calls are reported, each once, that are inside a function named
  // main, lie in no other call there, and call Exit on the alias.
  lemma WhichCalls(f: Node, pkg: string)
    requires TopLevelFuncs(f)
    ensures Distinct(MainSites(f, pkg))
    ensures forall s :: s in MainSites(f, pkg) <==>
              s.path != [] && s.path[0] < |f.children| && IsMain(f.children[s.path[0]])
              && IsSite(f.children[s.path[0]], pkg, Site(s.path[1..], s.pos))
  {
    WhichCallsFrom(f, pkg, 0);
  }

  lemma {:induction false} WhichCallsFrom(f: Node, pkg: string, i: nat)
    requires TopLevelFuncs(f) && i <= |f.children|
    ensures Distinct(MainSitesFrom(f, i, pkg))
    ensures forall s :: s in MainSitesFrom(f, i, pkg) <==>
              s.path != [] && i <= s.path[0] < |f.children| && IsMain(f.children[s.path[0]])
              && IsSite(f.children[s.path[0]], pkg, Site(s.path[1..], s.pos))
    decreases |f.children| - i
  {
    if i == |f.children| {
    } else {
      var d := f.children[i];
      var first, rest := Under(i, MainSites(d, pkg)), MainSitesFrom(f, i + 1, pkg);
      WhichCallsFrom(f, pkg, i + 1);
      if IsMain(d) { ExitSitesDistinct(d, pkg); } else { NoMainNoSites(d, pkg, 0); }
      UnderDistinct(i, MainSites(d, pkg));
      forall s
        ensures s in first <==>
                s.path != [] && s.path[0] == i && IsMain(d) && IsSite(d, pkg, Site(s.path[1..], s.pos))
      {
        UnderSites(i, MainSites(d, pkg), s);
        if s.path != [] { ExitSitesExact(d, pkg, Site(s.path[1..], s.pos)); }
      }
      FirstApart(first, rest, i);
    }
  }

  // ---- The whole analyzer ----

  // pkg is the alias of spec k, the last for os, of declaration d, the first that has one, of file f,
  // the first that has one.
  predicate IsAlias(files: seq<Node>, f: nat, d: nat, k: nat, pkg: string) {
    && IsFirst(files, f, FileImportsOs) && IsFirst(files[f].children, d, ImportsOs)
    && IsLastSpec(files[f].children[d].children, k)
    && var spec := files[f].children[d].children[k].kind;
       spec == ImportSpec(Some(pkg), "\"os\"") || (spec == ImportSpec(None, "\"os\"") && pkg == "os")
  }

  ghost predicate OsIsCalled(files: seq<Node>, pkg: string) {
    exists f, d, k :: IsAlias(files, f, d, k, pkg)
  }

  lemma SomeSpec(files: seq<Node>) returns (f: nat, d: nat, k: nat)
    requires exists i :: 0 <= i < |files| && FileImportsOs(files[i])
    ensures IsFirst(files, f, FileImportsOs) && IsFirst(files[f].children, d, ImportsOs)
    ensures IsLastSpec(files[f].children[d].children, k)
  {
    f := FirstOf(files, FileImportsOs);
    d := FirstOf(files[f].children, ImportsOs);
    var i :| 0 <= i < |files[f].children[d].children| && IsOsImport(files[f].children[d].children[i]);
    k := LastFrom(files[f].children[d].children, i);
  }

  lemma AliasExact(files: seq<Node>, pkg: string)
    requires GoodFiles(files)
    ensures AliasAll(files, None) == Some(pkg) <==> OsIsCalled(files, pkg)
  {
    if AliasAll(files, None) == Some(pkg) {
      WhetherAlias(files);
      var f, d, k := SomeSpec(files);
      WhichAlias(files, f, d, k);
      assert IsAlias(files, f, d, k, pkg);
    } else if OsIsCalled(files, pkg) {
      var f, d, k :| IsAlias(files, f, d, k, pkg);
      WhichAlias(files, f, d, k);
    }
  }

  // s is a call of pkg.Exit in a function main of one of the files, and in no other call there.
  predicate ExitsInMain(files: seq<Node>, pkg: string, s: Site) {
    && |s.path| >= 2 && s.path[0] < |files| && s.path[1] < |files[s.path[0]].children|
    && IsMain(files[s.path[0]].children[s.path[1]])
    && IsSite(files[s.path[0]].children[s.path[1]], pkg, Site(s.path[2..], s.pos))
  }

  lemma FileSites(f: Node, pkg: string, s: Site)
    requires TopLevelFuncs(f) && s.path != []
    ensures Site(s.path[1..], s.pos) in MainSites(f, pkg) <==>
            |s.path| >= 2 && s.path[1] < |f.children| && IsMain(f.children[s.path[1]])
            && IsSite(f.children[s.path[1]], pkg, Site(s.path[2..], s.pos))
  {
    WhichCalls(f, pkg);
    if |s.path| >= 2 { assert s.path[1..][1..] == s.path[2..]; }
  }

  lemma {:induction false} PackageSitesFrom(files: seq<Node>, i: nat, pkg: string)
    requires i <= |files| && forall f :: 0 <= f < |files| ==> TopLevelFuncs(files[f])
    ensures Distinct(MainSitesFrom(Package(files), i, pkg))
    ensures forall s :: s in MainSitesFrom(Package(files), i, pkg) <==>
              s.path != [] && s.path[0] >= i && ExitsInMain(files, pkg, s)
    decreases |files| - i
  {
    if i == |files| {
    } else {
      var sites := MainSites(files[i], pkg);
      var first, rest := Under(i, sites), MainSitesFrom(Package(files), i + 1, pkg);
      PackageSitesFrom(files, i + 1, pkg);
      WhichCalls(files[i], pkg);
      UnderDistinct(i, sites);
      forall s ensures s in first <==> s.path != [] && s.path[0] == i && ExitsInMain(files, pkg, s) {
        UnderSites(i, sites, s);
        if s.path != [] { FileSites(files[i], pkg, s); }
      }
      FirstApart(first, rest, i);
    }
  }

  // For a package of Go files: in package main, and in no other, exactly those calls are reported,
  // each once, that call Exit on the alias of os and lie in a function main and in no other call.
  lemma WhatIsReported(packageName: string, files: seq<Node>)
    requires GoodFiles(files) && forall f :: 0 <= f < |files| ==> TopLevelFuncs(files[f])
    ensures Distinct(Reported(packageName, files))
    ensures forall s :: s in Reported(packageName, files) <==>
              packageName == "main" && exists pkg :: OsIsCalled(files, pkg) && ExitsInMain(files, pkg, s)
  {
    forall pkg ensures AliasAll(files, None) == Some(pkg) <==> OsIsCalled(files, pkg) {
      AliasExact(files, pkg);
    }
    if packageName == "main" && AliasAll(files, None).Some? {
      AllSites(files, AliasAll(files, None).value);
    }
  }

  lemma AllSites(files: seq<Node>, pkg: string)
    requires forall f :: 0 <= f < |files| ==> TopLevelFuncs(files[f])
    ensures Distinct(MainSites(Package(files), pkg))
    ensures forall s :: s in MainSites(Package(files), pkg) <==> ExitsInMain(files, pkg, s)
  {
    PackageSitesFrom(files, 0, pkg);
  }

  // ---- A small file ----

  // import alias path; func name() { x.sel() }
  function SmallFile(alias: Option<string>, path: string, name: string, x: string, sel: string, pos: int): Node {
    Node(Other, [Node(Other, [Node(ImportSpec(alias, path), [])]),
                 Node(FuncDecl(name), [Node(Call(pos), [Node(Selector(sel), [Node(Ident(x), [])])])])])
  }

  lemma SmallAlias(alias: Option<string>, path: string, name: string, x: string, sel: string, pos: int)
    ensures AliasAll([SmallFile(alias, path, name, x, sel, pos)], None) ==
            if path != "\"os\"" then None else if alias == None then Some("os") else alias
  {
    var spec := Node(ImportSpec(alias, path), []);
    var decl := Node(Other, [spec]);
    var file := SmallFile(alias, path, name, x, sel, pos);
    var main := file.children[1];
    var call := main.children[0];
    var id := call.children[0].children[0];
    AliasOne(id, call.children[0]);
    AliasOne(call.children[0], call);
    AliasOne(call, main);
    AliasOne(spec, decl);
    assert Alias(main, None) == None;
    assert Alias(spec, None) == if path != "\"os\"" then None else if alias == None then Some("os") else alias;
    assert file.children[0] == decl && file.children[1..] == [main] && [main][1..] == [] && [file][1..] == [];
    assert AliasAll(file.children, None) == AliasAll([main], Alias(decl, None));
    assert AliasAll([main], Alias(decl, None)) == AliasAll([], Alias(main, Alias(decl, None)));
    assert AliasAll([file], None) == AliasAll([], Alias(file, None));
  }

  lemma AliasOne(child: Node, n: Node)
    requires n.children == [child] && !IsOsImport(n)
    ensures Alias(n, None) == Alias(child, None)
    ensures child.children == [] && !IsOsImport(child) ==> Alias(child, None) == None
  {
    assert n.children[0] == child && n.children[1..] == [];
    assert AliasAll(n.children, None) == AliasAll([], Alias(child, None));
  }

  lemma SmallSites(alias: Option<string>, path: string, name: string, x: string, sel: string, pos: int, pkg: string)
    ensures MainSites(Package([SmallFile(alias, path, name, x, sel, pos)]), pkg) ==
            if name == "main" && sel == "Exit" && x == pkg then [Site([0, 1, 0], pos)] else []
  {
    var file := SmallFile(alias, path, name, x, sel, pos);
    var main := file.children[1];
    var call := main.children[0];
    var decl := file.children[0];
    assert MainSites(decl.children[0], pkg) == [];
    assert MainSites(decl, pkg) == MainSitesFrom(decl, 0, pkg) == Under(0, []) + MainSitesFrom(decl, 1, pkg) == [];
    SmallMain(main, name, call, x, sel, pos, pkg);
    assert MainSitesFrom(file, 1, pkg) == Under(1, MainSites(main, pkg)) + MainSitesFrom(file, 2, pkg);
    assert MainSites(file, pkg) == Under(0, []) + MainSitesFrom(file, 1, pkg);
    var p := Package([file]);
    assert MainSites(p, pkg) == Under(0, MainSites(file, pkg)) + MainSitesFrom(p, 1, pkg);
    assert [1] + [0] == [1, 0] && [0] + [1, 0] == [0, 1, 0];
  }

  lemma SmallMain(main: Node, name: string, call: Node, x: string, sel: string, pos: int, pkg: string)
    requires main == Node(FuncDecl(name), [call])
    requires call == Node(Call(pos), [Node(Selector(sel), [Node(Ident(x), [])])])
    ensures MainSites(main, pkg) == if name == "main" && sel == "Exit" && x == pkg then [Site([0], pos)] else []
  {
    var s := call.children[0];
    var id := s.children[0];
    if name == "main" {
      assert ExitSites(main, pkg) == Under(0, ExitSites(call, pkg)) + ExitSitesFrom(main, 1, pkg);
      assert [0] + [] == [0];
    } else {
      assert MainSites(id, pkg) == [];
      assert MainSites(s, pkg) == Under(0, []) + MainSitesFrom(s, 1, pkg) == [];
      assert MainSites(call, pkg) == Under(0, []) + MainSitesFrom(call, 1, pkg) == [];
      assert MainSites(main, pkg) == Under(0, []) + MainSitesFrom(main, 1, pkg) == [];
    }
  }

  // One import, one function and one call in it: the call is reported exactly when the package and the
  // function are named main, the import is of os, and the call is of Exit on the name of the import,
  // which is os when none is given.
  lemma SmallFileReported(packageName: string, alias: Option<string>, path: string, name: string, x: string,
                          sel: string, pos: int)
    ensures Positions(Reported(packageName, [SmallFile(alias, path, name, x, sel, pos)])) ==
            if packageName == "main" && path == "\"os\"" && name == "main" && sel == "Exit"
               && x == (match alias case None => "os" case Some(a) => a)
            then [pos] else []
  {
    SmallAlias(alias, path, name, x, sel, pos);
    forall pkg ensures MainSites(Package([SmallFile(alias, path, name, x, sel, pos)]), pkg) ==
                       if name == "main" && sel == "Exit" && x == pkg then [Site([0, 1, 0], pos)] else []
    {
      SmallSites(alias, path, name, x, sel, pos, pkg);
    }
  }

  // ---- What is not looked into ----

  // A call is not entered: os.Exit as an argument of another call is not reported, and neither is a call
  // inside the arguments of os.Exit.
  lemma NestedCalls(call: Node, pkg: string)
    requires call.kind.Call? && call.children != []
    ensures ExitSites(call, pkg) == if call.children[0].kind == Selector("Exit")
              && call.children[0].children != [] && call.children[0].children[0].kind == Ident(pkg)
            then [Site([], call.kind.pos)] else []
  {
  }

  // Two specs for os: in one declaration the second counts, in two the first does.
  lemma TwoSpecs(a: string, b: string)
    ensures var x, y := Node(ImportSpec(Some(a), "\"os\""), []), Node(ImportSpec(Some(b), "\"os\""), []);
            && Alias(Node(Other, [x, y]), None) == Some(b)
            && Alias(Node(Other, [Node(Other, [x]), Node(Other, [y])]), None) == Some(a)
  {
    var x, y := Node(ImportSpec(Some(a), "\"os\""), []), Node(ImportSpec(Some(b), "\"os\""), []);
    var d, e := Node(Other, [x]), Node(Other, [y]);
    assert [x, y][1..] == [y] && [y][1..] == [] && [x][1..] == [] && [d, e][1..] == [e] && [e][1..] == [];
    assert AliasAll([x, y], None) == AliasAll([y], Some(a)) == AliasAll([], Some(b));
    AliasOne(x, d);
    assert AliasAll([d, e], None) == AliasAll([e], Some(a)) == AliasAll([], Alias(e, Some(a)));
  }
}
