/** Inferring which module imports which (`find_dependencies`). */
module JavaDependencies {
  import opened Wrappers
  import opened Bob
  import opened JavaPatterns
  import opened JavaModules

  /** Module name to the modules it was found to import, one entry per match. */
  type DependencyMap = map<string, seq<Module>>

  function Entry(deps: DependencyMap, key: string): seq<Module> {
    if key in deps then deps[key] else []
  }

  /** `entry(key).or_insert_with(Vec::new).push(..)` for each of `targets`: the key
      appears only once something is pushed under it. */
  function Push(deps: DependencyMap, key: string, targets: seq<Module>): (r: DependencyMap)
    ensures forall x :: Entry(r, x) == Entry(deps, x) + (if x == key then targets else [])
    ensures forall x :: x in r <==> x in deps || (x == key && targets != [])
  {
    if targets == [] then deps else deps[key := Entry(deps, key) + targets]
  }

  /** A file imports module `name` when it can be read and its text matches the import pattern. */
  predicate FileImports(fs: FileSystem, path: string, name: string) {
    match ReadToString(fs, path)
    case None => false
    case Some(contents) => ImportsModule(contents, name)
  }

  /** What one readable file of a module called `self` pushes: the modules among
      `ms[..j]`, in order, not called `self`, whose import pattern matches. */
  function FileTargets(ms: seq<Module>, self: string, contents: string, j: nat): seq<Module>
    requires j <= |ms|
  {
    if j == 0 then [] else
    var other := ms[j - 1];
    FileTargets(ms, self, contents, j - 1) +
      (if other.name != self && ImportsModule(contents, other.name) then [other] else [])
  }

  /** What file `j` of module `m` pushes; an unreadable file pushes nothing. */
  function Pushed(ms: seq<Module>, fs: FileSystem, m: Module, j: nat): seq<Module>
    requires j < |m.sourceFiles|
  {
    match ReadToString(fs, m.sourceFiles[j])
    case None => []
    case Some(contents) => FileTargets(ms, m.name, contents, |ms|)
  }

  /** What the first `j` files of module `m` push, file after file. */
  function Targets(ms: seq<Module>, fs: FileSystem, m: Module, j: nat): seq<Module>
    requires j <= |m.sourceFiles|
  {
    if j == 0 then [] else Targets(ms, fs, m, j - 1) + Pushed(ms, fs, m, j - 1)
  }

  /** The map after the first `i` modules have been scanned. */
  function Dependencies(ms: seq<Module>, fs: FileSystem, i: nat): DependencyMap
    requires i <= |ms|
  {
    if i == 0 then map[]
    else Push(Dependencies(ms, fs, i - 1), ms[i - 1].name, Targets(ms, fs, ms[i - 1], |ms[i - 1].sourceFiles|))
  }

  /** `find_dependencies`: for each module, each of its readable files, and each
      other module, one push per match. The three nested loops of the source are
      split into one method per loop. */
  method FindDependencies(ms: seq<Module>, fs: FileSystem) returns (deps: DependencyMap)
    ensures deps == Dependencies(ms, fs, |ms|)
  {
    deps := map[];
    for i := 0 to |ms|
      invariant deps == Dependencies(ms, fs, i)
    {
      deps := ScanModule(ms, fs, ms[i], deps);
    }
  }

  /** The loop over the files of module `m`. */
  method ScanModule(ms: seq<Module>, fs: FileSystem, m: Module, deps: DependencyMap) returns (r: DependencyMap)
    ensures r == Push(deps, m.name, Targets(ms, fs, m, |m.sourceFiles|))
  {
    r := deps;
    for j := 0 to |m.sourceFiles|
      invariant r == Push(deps, m.name, Targets(ms, fs, m, j))
    {
      var contents := ReadToString(fs, m.sourceFiles[j]);
      if contents.Some? {
        r := ScanFile(ms, m.name, contents.value, r);
      }
      ScanStep(deps, ms, fs, m, j);
    }
  }

  /** One more file scanned: its pushes follow those of the files before it. */
  lemma ScanStep(deps: DependencyMap, ms: seq<Module>, fs: FileSystem, m: Module, j: nat)
    requires j < |m.sourceFiles|
    ensures Push(Push(deps, m.name, Targets(ms, fs, m, j)), m.name, Pushed(ms, fs, m, j)) ==
      Push(deps, m.name, Targets(ms, fs, m, j + 1))
    ensures ReadToString(fs, m.sourceFiles[j]).None? ==> Targets(ms, fs, m, j + 1) == Targets(ms, fs, m, j)
  {
    PushTwice(deps, m.name, Targets(ms, fs, m, j), Pushed(ms, fs, m, j));
    if ReadToString(fs, m.sourceFiles[j]).None? {
      assert Targets(ms, fs, m, j) + [] == Targets(ms, fs, m, j);
    }
  }

  /** The loop over the other modules, for one readable file of the module called `self`. */
  method ScanFile(ms: seq<Module>, self: string, contents: string, deps: DependencyMap) returns (r: DependencyMap)
    ensures r == Push(deps, self, FileTargets(ms, self, contents, |ms|))
  {
    r := deps;
    for l := 0 to |ms|
      invariant r == Push(deps, self, FileTargets(ms, self, contents, l))
    {
      var other := ms[l];
      if other.name != self && ImportsModule(contents, other.name) {
        PushOneMore(deps, self, FileTargets(ms, self, contents, l), other);
        r := r[self := Entry(r, self) + [other]];
        assert FileTargets(ms, self, contents, l + 1) == FileTargets(ms, self, contents, l) + [other];
        assert r == Push(deps, self, FileTargets(ms, self, contents, l) + [other]);
      } else {
        assert FileTargets(ms, self, contents, l + 1) == FileTargets(ms, self, contents, l);
      }
    }
  }

  lemma PushOneMore(deps: DependencyMap, key: string, targets: seq<Module>, x: Module)
    ensures Push(deps, key, targets + [x]) ==
      Push(deps, key, targets)[key := Entry(Push(deps, key, targets), key) + [x]]
  {
    if targets == [] {
      assert targets + [x] == [x];
    } else {
      var e := Entry(deps, key);
      ModulesRegroup(e, targets, [x]);
      UpdateTwice(deps, key, e + targets, e + targets + [x]);
    }
  }

  lemma PushTwice(deps: DependencyMap, key: string, a: seq<Module>, b: seq<Module>)
    ensures Push(Push(deps, key, a), key, b) == Push(deps, key, a + b)
  {
    if a == [] {
      assert a + b == b;
    } else if b == [] {
      assert a + b == a;
    } else {
      var e := Entry(deps, key);
      assert Entry(Push(deps, key, a), key) == e + a;
      ModulesRegroup(e, a, b);
      UpdateTwice(deps, key, e + a, e + a + b);
    }
  }

  lemma ModulesRegroup(x: seq<Module>, y: seq<Module>, z: seq<Module>)
    ensures x + (y + z) == x + y + z
  {
  }

  lemma UpdateTwice(deps: DependencyMap, key: string, v: seq<Module>, w: seq<Module>)
    ensures deps[key := v][key := w] == deps[key := w]
  {
  }

  // What the map records

  /** Some readable file among `files` matches the import pattern of module `name`. */
  ghost predicate SomeFileImports(fs: FileSystem, files: seq<string>, name: string) {
    exists b :: 0 <= b < |files| && FileImports(fs, files[b], name)
  }

  /** Some readable file of a module called `key` matches the import pattern of
      `target`, a module of `ms` with another name. */
  ghost predicate ImportEdge(ms: seq<Module>, fs: FileSystem, i: nat, key: string, target: Module)
    requires i <= |ms|
  {
    && target in ms && target.name != key
    && exists a :: 0 <= a < i && ms[a].name == key && SomeFileImports(fs, ms[a].sourceFiles, target.name)
  }

  lemma {:induction false} FileTargetsExact(ms: seq<Module>, self: string, contents: string, j: nat)
    requires j <= |ms|
    ensures forall e :: e in FileTargets(ms, self, contents, j) <==>
      e in ms[..j] && e.name != self && ImportsModule(contents, e.name)
  {
    if j > 0 {
      FileTargetsExact(ms, self, contents, j - 1);
      assert ms[..j] == ms[..j - 1] + [ms[j - 1]];
    }
  }

  lemma {:induction false} TargetsExact(ms: seq<Module>, fs: FileSystem, m: Module, j: nat)
    requires j <= |m.sourceFiles|
    ensures forall e :: e in Targets(ms, fs, m, j) <==>
      e in ms && e.name != m.name && SomeFileImports(fs, m.sourceFiles[..j], e.name)
  {
    if j > 0 {
      TargetsExact(ms, fs, m, j - 1);
      forall e: Module ensures e in Targets(ms, fs, m, j) <==>
        e in ms && e.name != m.name && SomeFileImports(fs, m.sourceFiles[..j], e.name)
      {
        SomeFileImportsSnoc(fs, m.sourceFiles, j, e.name);
        PushedExact(ms, fs, m, j - 1, e);
      }
    }
  }

  /** The files up to `j` import `name` when those up to `j - 1` do or file `j - 1` does. */
  lemma SomeFileImportsSnoc(fs: FileSystem, files: seq<string>, j: nat, name: string)
    requires 0 < j <= |files|
    ensures SomeFileImports(fs, files[..j], name) <==>
      SomeFileImports(fs, files[..j - 1], name) || FileImports(fs, files[j - 1], name)
  {
    assert files[..j][j - 1] == files[j - 1];
    assert forall b :: 0 <= b < j - 1 ==> files[..j][b] == files[..j - 1][b];
  }

  /** File `j` of `m` pushes exactly the other modules whose import pattern it matches. */
  lemma PushedExact(ms: seq<Module>, fs: FileSystem, m: Module, j: nat, e: Module)
    requires j < |m.sourceFiles|
    ensures e in Pushed(ms, fs, m, j) <==> e in ms && e.name != m.name && FileImports(fs, m.sourceFiles[j], e.name)
  {
    match ReadToString(fs, m.sourceFiles[j])
    case None =>
    case Some(contents) =>
      FileTargetsExact(ms, m.name, contents, |ms|);
      assert ms[..|ms|] == ms;
  }

  /** An edge seen among the first `i` modules was seen among the first `i - 1`, or comes from module `i - 1`. */
  lemma ImportEdgeSplit(ms: seq<Module>, fs: FileSystem, i: nat, key: string, e: Module)
    requires 0 < i <= |ms|
    ensures ImportEdge(ms, fs, i, key, e) <==>
      || ImportEdge(ms, fs, i - 1, key, e)
      || (ms[i - 1].name == key && e in ms && e.name != key && SomeFileImports(fs, ms[i - 1].sourceFiles, e.name))
  {
    if ImportEdge(ms, fs, i - 1, key, e) {
      var a :| 0 <= a < i - 1 && ms[a].name == key && SomeFileImports(fs, ms[a].sourceFiles, e.name);
      assert ImportEdge(ms, fs, i, key, e);
    }
    if ms[i - 1].name == key && e in ms && e.name != key && SomeFileImports(fs, ms[i - 1].sourceFiles, e.name) {
      assert ImportEdge(ms, fs, i, key, e);
    }
  }

  lemma ExactStep(ms: seq<Module>, fs: FileSystem, i: nat, key: string, e: Module)
    requires 0 < i <= |ms|
    requires e in Entry(Dependencies(ms, fs, i - 1), key) <==> ImportEdge(ms, fs, i - 1, key, e)
    ensures e in Entry(Dependencies(ms, fs, i), key) <==> ImportEdge(ms, fs, i, key, e)
  {
    var m := ms[i - 1];
    TargetsExact(ms, fs, m, |m.sourceFiles|);
    assert m.sourceFiles[..|m.sourceFiles|] == m.sourceFiles;
    ImportEdgeSplit(ms, fs, i, key, e);
    var before := Dependencies(ms, fs, i - 1);
    var targets := Targets(ms, fs, m, |m.sourceFiles|);
    assert Entry(Dependencies(ms, fs, i), key) == Entry(before, key) + (if key == m.name then targets else []);
  }

  /** `find_dependencies` records `target` under `key` exactly when some readable
      file of a module called `key` matches `target`'s import pattern and `target`
      is another module: no module depends on itself, and an unreadable file
      contributes nothing. */
  lemma {:induction false} DependenciesExact(ms: seq<Module>, fs: FileSystem, i: nat)
    requires i <= |ms|
    ensures forall key, e :: e in Entry(Dependencies(ms, fs, i), key) <==> ImportEdge(ms, fs, i, key, e)
  {
    if i > 0 {
      DependenciesExact(ms, fs, i - 1);
      forall key, e ensures e in Entry(Dependencies(ms, fs, i), key) <==> ImportEdge(ms, fs, i, key, e) {
        ExactStep(ms, fs, i, key, e);
      }
    }
  }

  /** A key is in the map only with at least one entry under it. */
  lemma {:induction false} DependencyKeysHaveEntries(ms: seq<Module>, fs: FileSystem, i: nat)
    requires i <= |ms|
    ensures forall key :: key in Dependencies(ms, fs, i) ==> Dependencies(ms, fs, i)[key] != []
  {
    if i > 0 {
      DependencyKeysHaveEntries(ms, fs, i - 1);
    }
  }

  // How often the map records a module

  /** How many of `files` can be read and match the import pattern of `name`. */
  function ImportCount(fs: FileSystem, files: seq<string>, name: string): nat
    decreases |files|
  {
    if |files| == 0 then 0
    else ImportCount(fs, files[..|files| - 1], name) + (if FileImports(fs, files[|files| - 1], name) then 1 else 0)
  }

  /** The source files of the modules among the first `i` that are called `key`, module after module. */
  function FilesNamed(ms: seq<Module>, i: nat, key: string): seq<string>
    requires i <= |ms|
  {
    if i == 0 then [] else FilesNamed(ms, i - 1, key) + (if ms[i - 1].name == key then ms[i - 1].sourceFiles else [])
  }

  lemma {:induction false} ImportCountConcat(fs: FileSystem, a: seq<string>, b: seq<string>, name: string)
    ensures ImportCount(fs, a + b, name) == ImportCount(fs, a, name) + ImportCount(fs, b, name)
    decreases |b|
  {
    if |b| > 0 {
      var b0, x := b[..|b| - 1], b[|b| - 1];
      assert (a + b)[..|a + b| - 1] == a + b0 && (a + b)[|a + b| - 1] == x;
      ImportCountConcat(fs, a, b0, name);
    } else {
      assert a + b == a;
    }
  }

  /** One file pushes a module once for each place it has in `ms[..j]`, if it imports it. */
  lemma {:induction false} FileTargetsCount(ms: seq<Module>, self: string, contents: string, j: nat, e: Module)
    requires j <= |ms|
    ensures multiset(FileTargets(ms, self, contents, j))[e] ==
      if e.name != self && ImportsModule(contents, e.name) then multiset(ms[..j])[e] else 0
    decreases j
  {
    if j > 0 {
      var k := j - 1;
      FileTargetsCount(ms, self, contents, k, e);
      FileTargetsStep(ms, self, contents, k, e);
    }
  }

  /** One more module of the inner loop of `find_dependencies`, counted. */
  lemma FileTargetsStep(ms: seq<Module>, self: string, contents: string, j: nat, e: Module)
    requires j < |ms|
    requires multiset(FileTargets(ms, self, contents, j))[e] ==
      if e.name != self && ImportsModule(contents, e.name) then multiset(ms[..j])[e] else 0
    ensures multiset(FileTargets(ms, self, contents, j + 1))[e] ==
      if e.name != self && ImportsModule(contents, e.name) then multiset(ms[..j + 1])[e] else 0
  {
    var other := ms[j];
    var keep := other.name != self && ImportsModule(contents, other.name);
    assert FileTargets(ms, self, contents, j + 1) == FileTargets(ms, self, contents, j) + (if keep then [other] else []);
    assert ms[..j + 1] == ms[..j] + [other];
    CountStep(FileTargets(ms, self, contents, j), ms[..j], other, e, keep, e.name != self && ImportsModule(contents, e.name));
  }

  /** One step of a filter, counted: `kept` counts `e` as `all` does when `e` passes. */
  lemma CountStep(kept: seq<Module>, all: seq<Module>, other: Module, e: Module, keep: bool, pass: bool)
    requires multiset(kept)[e] == if pass then multiset(all)[e] else 0
    requires other == e ==> keep == pass
    ensures multiset(kept + (if keep then [other] else []))[e] == if pass then multiset(all + [other])[e] else 0
  {
    CountConcat(kept, if keep then [other] else [], e);
    CountConcat(all, [other], e);
  }

  lemma CountConcat(a: seq<Module>, b: seq<Module>, e: Module)
    ensures multiset(a + b)[e] == multiset(a)[e] + multiset(b)[e]
  {
  }

  lemma PrefixSnoc(ms: seq<Module>, j: nat)
    requires 0 < j <= |ms|
    ensures ms[..j] == ms[..j - 1] + [ms[j - 1]]
  {
  }

  lemma PushedCount(ms: seq<Module>, fs: FileSystem, m: Module, j: nat, e: Module)
    requires j < |m.sourceFiles|
    ensures multiset(Pushed(ms, fs, m, j))[e] ==
      if e.name != m.name && FileImports(fs, m.sourceFiles[j], e.name) then multiset(ms)[e] else 0
  {
    match ReadToString(fs, m.sourceFiles[j])
    case None =>
    case Some(contents) =>
      FileTargetsCount(ms, m.name, contents, |ms|, e);
      assert ms[..|ms|] == ms;
  }

  /** The first `j` files of `m` push another module once per matching file (and
      per place it has in `ms`), and never `m`'s own name. */
  lemma {:induction false} TargetsCount(ms: seq<Module>, fs: FileSystem, m: Module, j: nat, e: Module)
    requires j <= |m.sourceFiles|
    ensures multiset(Targets(ms, fs, m, j))[e] ==
      if e.name != m.name then multiset(ms)[e] * ImportCount(fs, m.sourceFiles[..j], e.name) else 0
    decreases j
  {
    if j > 0 {
      var before, pushed := Targets(ms, fs, m, j - 1), Pushed(ms, fs, m, j - 1);
      TargetsCount(ms, fs, m, j - 1, e);
      PushedCount(ms, fs, m, j - 1, e);
      assert Targets(ms, fs, m, j) == before + pushed;
      CountConcat(before, pushed, e);
      ImportCountPrefix(fs, m.sourceFiles, j, e.name);
      var imp := FileImports(fs, m.sourceFiles[j - 1], e.name);
      var c := ImportCount(fs, m.sourceFiles[..j - 1], e.name);
      MulStep(multiset(before)[e], multiset(pushed)[e], multiset(ms)[e], c,
        ImportCount(fs, m.sourceFiles[..j], e.name), e.name != m.name, imp);
    }
  }

  lemma ImportCountPrefix(fs: FileSystem, files: seq<string>, j: nat, name: string)
    requires 0 < j <= |files|
    ensures ImportCount(fs, files[..j], name) ==
      ImportCount(fs, files[..j - 1], name) + (if FileImports(fs, files[j - 1], name) then 1 else 0)
  {
    assert files[..j][..j - 1] == files[..j - 1];
  }

  lemma MulStep(t: nat, p: nat, x: nat, c: nat, n: nat, ne: bool, imp: bool)
    requires t == if ne then x * c else 0
    requires p == if ne && imp then x else 0
    requires n == c + if imp then 1 else 0
    ensures t + p == if ne then x * n else 0
  {
    if ne && imp {
      assert x * (c + 1) == x * c + x;
    }
  }

  lemma MulSum(t: nat, p: nat, x: nat, c: nat, d: nat, n: nat, ne: bool, same: bool)
    requires t == if ne then x * c else 0
    requires p == if same && ne then x * d else 0
    requires n == c + if same then d else 0
    ensures t + p == if ne then x * n else 0
  {
    if same && ne {
      assert x * (c + d) == x * c + x * d;
    }
  }

  lemma FilesNamedCount(ms: seq<Module>, fs: FileSystem, j: nat, key: string, name: string)
    requires j < |ms|
    ensures ImportCount(fs, FilesNamed(ms, j + 1, key), name) ==
      ImportCount(fs, FilesNamed(ms, j, key), name) +
        (if ms[j].name == key then ImportCount(fs, ms[j].sourceFiles, name) else 0)
  {
    var extra := if ms[j].name == key then ms[j].sourceFiles else [];
    assert FilesNamed(ms, j + 1, key) == FilesNamed(ms, j, key) + extra;
    ImportCountConcat(fs, FilesNamed(ms, j, key), extra, name);
  }

  /** All of `m`'s files push what `TargetsCount` says for the whole list. */
  lemma AllTargetsCount(ms: seq<Module>, fs: FileSystem, m: Module, e: Module)
    ensures multiset(Targets(ms, fs, m, |m.sourceFiles|))[e] ==
      if e.name != m.name then multiset(ms)[e] * ImportCount(fs, m.sourceFiles, e.name) else 0
  {
    TargetsCount(ms, fs, m, |m.sourceFiles|, e);
    assert m.sourceFiles[..|m.sourceFiles|] == m.sourceFiles;
  }

  /** `find_dependencies` pushes one entry per matching file: under `key`, another
      module appears as often as there are readable files of modules called `key`
      that match its import pattern (times the places it has in `ms`). */
  lemma OneEntryPerMatchingFile(ms: seq<Module>, fs: FileSystem, i: nat, key: string, e: Module)
    requires i <= |ms|
    ensures multiset(Entry(Dependencies(ms, fs, i), key))[e] ==
      if e.name != key then multiset(ms)[e] * ImportCount(fs, FilesNamed(ms, i, key), e.name) else 0
  {
    EntryCounts(ms, fs, i, key, e);
  }

  /** How often `e` is recorded under `key` after the first `i` modules ... */
  ghost function EntryTimes(ms: seq<Module>, fs: FileSystem, i: nat, key: string, e: Module): nat
    requires i <= |ms|
  {
    multiset(Entry(Dependencies(ms, fs, i), key))[e]
  }

  /** ... and how often the matching files of the modules called `key` among them ask for it. */
  ghost function MatchTimes(ms: seq<Module>, fs: FileSystem, i: nat, key: string, e: Module): nat
    requires i <= |ms|
  {
    if e.name != key then multiset(ms)[e] * ImportCount(fs, FilesNamed(ms, i, key), e.name) else 0
  }

  lemma {:induction false} EntryCounts(ms: seq<Module>, fs: FileSystem, i: nat, key: string, e: Module)
    requires i <= |ms|
    ensures EntryTimes(ms, fs, i, key, e) == MatchTimes(ms, fs, i, key, e)
    decreases i
  {
    if i == 0 {
      NoEntryYet(ms, fs, key, e);
    } else {
      var j := i - 1;
      EntryCounts(ms, fs, j, key, e);
      OneEntryStep(ms, fs, j, key, e);
    }
  }

  lemma NoEntryYet(ms: seq<Module>, fs: FileSystem, key: string, e: Module)
    ensures EntryTimes(ms, fs, 0, key, e) == 0 == MatchTimes(ms, fs, 0, key, e)
  {
    assert FilesNamed(ms, 0, key) == [];
  }

  /** One module of `find_dependencies`' outer loop adds its own matching files to the count. */
  lemma OneEntryStep(ms: seq<Module>, fs: FileSystem, j: nat, key: string, e: Module)
    requires j < |ms|
    requires EntryTimes(ms, fs, j, key, e) == MatchTimes(ms, fs, j, key, e)
    ensures EntryTimes(ms, fs, j + 1, key, e) == MatchTimes(ms, fs, j + 1, key, e)
  {
    var m := ms[j];
    var before := Entry(Dependencies(ms, fs, j), key);
    var extra := if key == m.name then Targets(ms, fs, m, |m.sourceFiles|) else [];
    assert Entry(Dependencies(ms, fs, j + 1), key) == before + extra;
    CountConcat(before, extra, e);
    AllTargetsCount(ms, fs, m, e);
    FilesNamedCount(ms, fs, j, key, e.name);
    var x, c, d, n := multiset(ms)[e], ImportCount(fs, FilesNamed(ms, j, key), e.name),
      ImportCount(fs, m.sourceFiles, e.name), ImportCount(fs, FilesNamed(ms, j + 1, key), e.name);
    assert multiset(extra)[e] == if key == m.name && e.name != key then x * d else 0 by {
      if key != m.name {
        assert extra == [];
      }
    }
    MulSum(multiset(before)[e], multiset(extra)[e], x, c, d, n, e.name != key, key == m.name);
    assert EntryTimes(ms, fs, j + 1, key, e) == multiset(before)[e] + multiset(extra)[e];
    assert MatchTimes(ms, fs, j + 1, key, e) == if e.name != key then x * n else 0;
  }

  /** A file of `importer` that imports `imported` pushes it once, with the module list `[importer, imported]`. */
  lemma ImporterPushesImported(ms: seq<Module>, fs: FileSystem, importer: Module, imported: Module, j: nat)
    requires ms == [importer, imported] && importer.name != imported.name && j < |importer.sourceFiles|
    requires FileImports(fs, importer.sourceFiles[j], imported.name)
    ensures Targets(ms, fs, importer, j + 1) == Targets(ms, fs, importer, j) + [imported]
  {
    var c := ReadToString(fs, importer.sourceFiles[j]).value;
    assert FileTargets(ms, importer.name, c, 1) == [];
    assert FileTargets(ms, importer.name, c, 2) == [imported];
  }

  /** With the module list `[importer, imported]`, where no file of `imported` imports `importer`, `imported` pushes nothing. */
  lemma ImportedPushesNothing(ms: seq<Module>, fs: FileSystem, importer: Module, imported: Module)
    requires ms == [importer, imported] && importer.name != imported.name
    requires forall j :: 0 <= j < |imported.sourceFiles| ==> !FileImports(fs, imported.sourceFiles[j], importer.name)
    ensures Targets(ms, fs, imported, |imported.sourceFiles|) == []
  {
    var n := |imported.sourceFiles|;
    TargetsExact(ms, fs, imported, n);
    assert imported.sourceFiles[..n] == imported.sourceFiles;
    var t := Targets(ms, fs, imported, n);
    forall e ensures multiset(t)[e] == 0 {
      assert e !in t;
    }
    assert multiset(t) == multiset{};
    assert |t| == |multiset(t)| == 0;
  }

  /** A module whose two files import the same module records that dependency twice. */
  lemma TwoImportingFiles(importer: Module, imported: Module, fs: FileSystem)
    requires importer.name != imported.name && |importer.sourceFiles| == 2
    requires FileImports(fs, importer.sourceFiles[0], imported.name)
    requires FileImports(fs, importer.sourceFiles[1], imported.name)
    requires forall j :: 0 <= j < |imported.sourceFiles| ==> !FileImports(fs, imported.sourceFiles[j], importer.name)
    ensures Dependencies([importer, imported], fs, 2) == map[importer.name := [imported, imported]]
  {
    var ms := [importer, imported];
    ImporterPushesImported(ms, fs, importer, imported, 0);
    ImporterPushesImported(ms, fs, importer, imported, 1);
    assert Targets(ms, fs, importer, 2) == [imported, imported];
    ImportedPushesNothing(ms, fs, importer, imported);
    assert ms[0] == importer && ms[1] == imported;
    var empty: DependencyMap := map[];
    assert Entry(empty, importer.name) + [imported, imported] == [imported, imported];
    assert Dependencies(ms, fs, 1) == Push(empty, importer.name, [imported, imported]);
  }
}
