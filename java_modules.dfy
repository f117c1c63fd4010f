/** Grouping a package's Java sources into modules (`Module`, `find_modules`). */
module JavaModules {
  import opened Wrappers
  import opened Strings
  import opened Bob
  import opened JavaNames

  /** A Java package: its dotted name and its member source files, in the order they were met. */
  datatype Module = Module(name: string, sourceFiles: seq<string>)

  predicate IsJavaFile(path: string) {
    EndsWith(path, ".java")
  }

  /** The index of the first module called `name`, or `|ms|` when there is none. */
  function IndexOfName(ms: seq<Module>, name: string): (k: nat)
    ensures k <= |ms|
    ensures k < |ms| ==> ms[k].name == name
    ensures forall j :: 0 <= j < k ==> ms[j].name != name
  {
    if |ms| == 0 then 0
    else if ms[0].name == name then 0
    else 1 + IndexOfName(ms[1..], name)
  }

  /** One `.java` file with module name `name` joins the first module of that name,
      or starts a new module at the end. */
  function AddToModule(ms: seq<Module>, name: string, file: string): seq<Module> {
    var k := IndexOfName(ms, name);
    if k < |ms| then ms[k := ms[k].(sourceFiles := ms[k].sourceFiles + [file])]
    else ms + [Module(name, [file])]
  }

  /** The modules after the `.java` files of `files` have been added, in order, to
      `base`; `Err` where `get_module_name` panics. */
  function Group(base: seq<Module>, files: seq<string>): Result<seq<Module>>
    decreases |files|
  {
    if |files| == 0 then Ok(base)
    else match Group(base, files[..|files| - 1])
      case Err(e) => Err(e)
      case Ok(ms) =>
        var file := files[|files| - 1];
        if !IsJavaFile(file) then Ok(ms)
        else match ModuleName(file)
          case None => Err(SourceOutsideRoot)
          case Some(name) => Ok(AddToModule(ms, name, file))
  }

  /** `find_modules`: the modules of the dependency packages first, in dependency
      order, then the package's own `.java` files grouped into them. */
  function Modules(b: Bobje): Result<seq<Module>>
    decreases b, |b.dependencies| + 1
  {
    match DependencyModules(b, |b.dependencies|)
    case Err(e) => Err(e)
    case Ok(ds) => Group(ds, b.sourceFiles)
  }

  /** The modules of the first `i` dependency packages, one after the other. */
  function DependencyModules(b: Bobje, i: nat): Result<seq<Module>>
    requires i <= |b.dependencies|
    decreases b, i
  {
    if i == 0 then Ok([])
    else match DependencyModules(b, i - 1)
      case Err(e) => Err(e)
      case Ok(ds) =>
        match Modules(b.dependencies[i - 1])
        case Err(e) => Err(e)
        case Ok(more) => Ok(ds + more)
  }

  /** `modules.iter_mut().find(|m| m.name == module_name)`, as an index. */
  method FindModuleIndex(ms: seq<Module>, name: string) returns (k: nat)
    ensures k == IndexOfName(ms, name)
  {
    k := 0;
    while k < |ms| && ms[k].name != name
      invariant k <= |ms|
      invariant forall j :: 0 <= j < k ==> ms[j].name != name
    {
      k := k + 1;
    }
  }

  method FindModules(b: Bobje) returns (r: Result<seq<Module>>)
    ensures r == Modules(b)
    decreases b
  {
    var modules: seq<Module> := [];
    var i := 0;
    while i < |b.dependencies|
      invariant i <= |b.dependencies|
      invariant DependencyModules(b, i) == Ok(modules)
    {
      var sub := FindModules(b.dependencies[i]);
      if sub.Err? {
        DependencyErrorPersists(b, i + 1, |b.dependencies|);
        return sub;
      }
      ghost var before := modules;
      var j := 0;
      while j < |sub.value|
        invariant j <= |sub.value|
        invariant modules == before + sub.value[..j]
      {
        modules := modules + [sub.value[j]];
        j := j + 1;
      }
      assert sub.value[..j] == sub.value;
      DependencyStep(b, i, before, sub.value);
      i := i + 1;
    }
    r := AddSourceFiles(modules, b.sourceFiles);
  }

  /** The second loop of `find_modules`: each `.java` file, in order, joins the
      first module with its module name or starts a new one. */
  method AddSourceFiles(base: seq<Module>, files: seq<string>) returns (r: Result<seq<Module>>)
    ensures r == Group(base, files)
  {
    var modules := base;
    var i := 0;
    while i < |files|
      invariant i <= |files|
      invariant Group(base, files[..i]) == Ok(modules)
    {
      var file := files[i];
      GroupStep(base, files, i, modules);
      if IsJavaFile(file) {
        var name := ModuleName(file);
        if name.None? {
          GroupErrorPersists(base, files, i + 1);
          return Err(SourceOutsideRoot);
        }
        var k := FindModuleIndex(modules, name.value);
        ghost var next := AddToModule(modules, name.value, file);
        if k < |modules| {
          modules := modules[k := modules[k].(sourceFiles := modules[k].sourceFiles + [file])];
        } else {
          modules := modules + [Module(name.value, [file])];
        }
        assert modules == next;
      }
      i := i + 1;
    }
    assert files[..i] == files;
    return Ok(modules);
  }

  /** One more dependency package for `DependencyModules`. */
  lemma DependencyStep(b: Bobje, i: nat, ds: seq<Module>, more: seq<Module>)
    requires i < |b.dependencies| && DependencyModules(b, i) == Ok(ds)
    requires Modules(b.dependencies[i]) == Ok(more)
    ensures DependencyModules(b, i + 1) == Ok(ds + more)
  {
  }

  /** One more file of `files` for `Group`. */
  lemma GroupStep(base: seq<Module>, files: seq<string>, i: nat, ms: seq<Module>)
    requires i < |files| && Group(base, files[..i]) == Ok(ms)
    ensures Group(base, files[..i + 1]) ==
      if !IsJavaFile(files[i]) then Ok(ms)
      else match ModuleName(files[i])
        case None => Err(SourceOutsideRoot)
        case Some(name) => Ok(AddToModule(ms, name, files[i]))
  {
    assert files[..i + 1][..i] == files[..i];
  }

  // Error propagation

  lemma {:induction false} DependencyErrorPersists(b: Bobje, i: nat, j: nat)
    requires i <= j <= |b.dependencies| && DependencyModules(b, i).Err?
    ensures DependencyModules(b, j) == DependencyModules(b, i)
    decreases j - i
  {
    if i < j {
      DependencyErrorPersists(b, i, j - 1);
    }
  }

  lemma {:induction false} GroupErrorPersists(base: seq<Module>, files: seq<string>, n: nat)
    requires n <= |files| && Group(base, files[..n]).Err?
    ensures Group(base, files) == Group(base, files[..n])
    decreases |files| - n
  {
    if n < |files| {
      assert files[..n + 1][..n] == files[..n];
      GroupErrorPersists(base, files, n + 1);
    } else {
      assert files[..n] == files;
    }
  }

  /** Grouping fails exactly when some `.java` file lies under neither `src/` nor `src-gen/`. */
  lemma {:induction false} GroupFailsIff(base: seq<Module>, files: seq<string>)
    ensures Group(base, files).Err? <==>
      exists i :: 0 <= i < |files| && IsJavaFile(files[i]) && ClassName(files[i]).None?
    ensures Group(base, files).Err? ==> Group(base, files).error == SourceOutsideRoot
    decreases |files|
  {
    if |files| > 0 {
      var init := files[..|files| - 1];
      GroupFailsIff(base, init);
      forall i | 0 <= i < |init| ensures init[i] == files[i] { }
    }
  }
}

module JavaModuleGrouping {
  import opened Wrappers
  import opened Strings
  import opened Bob
  import opened JavaNames
  import opened JavaModules

  /** The `.java` files of `files` whose module name is `name`, in order. */
  function FilesOfModule(files: seq<string>, name: string): (r: seq<string>)
    ensures forall f :: f in r <==> f in files && IsJavaFile(f) && ModuleName(f) == Some(name)
    decreases |files|
  {
    if |files| == 0 then []
    else
      var f := files[|files| - 1];
      FilesOfModule(files[..|files| - 1], name) + (if IsJavaFile(f) && ModuleName(f) == Some(name) then [f] else [])
  }

  /** The files module `k` of `base` starts with, or none for a module `base` does not have. */
  function BaseFiles(base: seq<Module>, k: nat): seq<string> {
    if k < |base| then base[k].sourceFiles else []
  }

  /** `base`'s modules keep their place and their name. */
  ghost predicate KeepsBase(base: seq<Module>, ms: seq<Module>) {
    |base| <= |ms| && forall k :: 0 <= k < |base| ==> ms[k].name == base[k].name
  }

  /** Every module added after `base` is the first of its name. */
  ghost predicate AddedNamesFresh(base: seq<Module>, ms: seq<Module>) {
    forall k :: |base| <= k < |ms| ==> IndexOfName(ms, ms[k].name) == k
  }

  /** Each module holds its starting files followed by, if it is the first of its
      name, exactly the `.java` files of `files` with that module name, in order. */
  ghost predicate HoldsItsFiles(base: seq<Module>, files: seq<string>, ms: seq<Module>) {
    forall k :: 0 <= k < |ms| ==>
      ms[k].sourceFiles == BaseFiles(base, k) +
        (if IndexOfName(ms, ms[k].name) == k then FilesOfModule(files, ms[k].name) else [])
  }

  /** Every `.java` file has a module name, and some module has that name. */
  ghost predicate AllPlaced(files: seq<string>, ms: seq<Module>) {
    forall f :: f in files && IsJavaFile(f) ==>
      ModuleName(f).Some? && IndexOfName(ms, ModuleName(f).value) < |ms|
  }

  /** The module names of the `.java` files of `files` that no module of `base`
      has, each once, in the order of the first file that has it. */
  function AddedNames(base: seq<Module>, files: seq<string>): seq<string>
    decreases |files|
  {
    if |files| == 0 then []
    else
      var r := AddedNames(base, files[..|files| - 1]);
      var f := files[|files| - 1];
      if IsJavaFile(f) && ModuleName(f).Some? && IndexOfName(base, ModuleName(f).value) == |base| &&
         ModuleName(f).value !in r
      then r + [ModuleName(f).value]
      else r
  }

  /** The modules after `base` are named, in order, by `AddedNames`. */
  ghost predicate NamesInOrder(base: seq<Module>, files: seq<string>, ms: seq<Module>) {
    var added := AddedNames(base, files);
    |ms| == |base| + |added| && forall k :: |base| <= k < |ms| ==> ms[k].name == added[k - |base|]
  }

  /** What grouping `files` into `base` yields. */
  ghost predicate Grouped(base: seq<Module>, files: seq<string>, ms: seq<Module>) {
    && KeepsBase(base, ms) && AddedNamesFresh(base, ms) && NamesInOrder(base, files, ms)
    && HoldsItsFiles(base, files, ms) && AllPlaced(files, ms)
  }

  /** `Grouped` leaves no choice: it holds of one list of modules at most. */
  lemma GroupedUnique(base: seq<Module>, files: seq<string>, ms1: seq<Module>, ms2: seq<Module>)
    requires Grouped(base, files, ms1) && Grouped(base, files, ms2)
    ensures ms1 == ms2
  {
    forall k | 0 <= k < |ms1| ensures ms1[k].name == ms2[k].name {
      if k < |base| {
        assert ms1[k].name == base[k].name;
      } else {
        assert ms1[k].name == AddedNames(base, files)[k - |base|];
      }
    }
    forall k | 0 <= k < |ms1| ensures ms1[k] == ms2[k] {
      IndexOfNameSameNames(ms1, ms2, ms1[k].name);
    }
  }

  /** Each added name is the module name of some `.java` file. */
  lemma {:induction false} AddedNameHasFile(base: seq<Module>, files: seq<string>, n: string)
    requires n in AddedNames(base, files)
    ensures exists f :: f in files && IsJavaFile(f) && ModuleName(f) == Some(n)
    decreases |files|
  {
    if |files| > 0 {
      var init, f := files[..|files| - 1], files[|files| - 1];
      if n in AddedNames(base, init) {
        AddedNameHasFile(base, init, n);
        var g :| g in init && IsJavaFile(g) && ModuleName(g) == Some(n);
        assert g in files;
      } else {
        assert f in files;
      }
    }
  }

  /** Every module the grouping adds holds at least one file, and only `.java`
      files of its own module name. */
  lemma AddedModulesHoldFiles(base: seq<Module>, files: seq<string>, ms: seq<Module>)
    requires Grouped(base, files, ms)
    ensures forall k :: |base| <= k < |ms| ==>
      && ms[k].sourceFiles != []
      && forall g :: g in ms[k].sourceFiles ==> g in files && IsJavaFile(g) && ModuleName(g) == Some(ms[k].name)
  {
    forall k | |base| <= k < |ms|
      ensures ms[k].sourceFiles != []
      ensures forall g :: g in ms[k].sourceFiles ==> g in files && IsJavaFile(g) && ModuleName(g) == Some(ms[k].name)
    {
      var n := ms[k].name;
      assert n == AddedNames(base, files)[k - |base|];
      AddedNameHasFile(base, files, n);
      var f :| f in files && IsJavaFile(f) && ModuleName(f) == Some(n);
      assert ms[k].sourceFiles == [] + FilesOfModule(files, n);
      assert f in ms[k].sourceFiles;
    }
  }

  /** A file not ending in `.java` adds no name. */
  lemma AddedNamesSkip(base: seq<Module>, init: seq<string>, f: string)
    requires !IsJavaFile(f)
    ensures AddedNames(base, init + [f]) == AddedNames(base, init)
  {
    assert (init + [f])[..|init|] == init;
  }

  /** A file whose module name `base` or the names added so far already have adds no name. */
  lemma NameAlreadyThere(base: seq<Module>, init: seq<string>, f: string, name: string)
    requires ModuleName(f) == Some(name)
    requires IndexOfName(base, name) < |base| || name in AddedNames(base, init)
    ensures AddedNames(base, init + [f]) == AddedNames(base, init)
  {
    assert (init + [f])[..|init|] == init;
  }

  /** A `.java` file of a module that is already there adds no name ... */
  lemma JoinAddsNoName(base: seq<Module>, init: seq<string>, f: string, name: string, ms: seq<Module>)
    requires KeepsBase(base, ms) && NamesInOrder(base, init, ms)
    requires ModuleName(f) == Some(name) && IndexOfName(ms, name) < |ms|
    ensures AddedNames(base, init + [f]) == AddedNames(base, init)
  {
    var k := IndexOfName(ms, name);
    if k < |base| {
      assert base[k].name == name;
      assert IndexOfName(base, name) <= k;
    } else {
      assert AddedNames(base, init)[k - |base|] == name;
    }
    NameAlreadyThere(base, init, f, name);
  }

  /** ... and keeps the names in order. */
  lemma JoinNames(base: seq<Module>, init: seq<string>, f: string, name: string, ms: seq<Module>)
    requires KeepsBase(base, ms) && NamesInOrder(base, init, ms)
    requires IsJavaFile(f) && ModuleName(f) == Some(name) && IndexOfName(ms, name) < |ms|
    ensures NamesInOrder(base, init + [f], AddToModule(ms, name, f))
  {
    JoinAddsNoName(base, init, f, name, ms);
    JoinSameIndex(ms, name, f, name);
  }

  /** A `.java` file of a module that is not there yet adds its name at the end. */
  lemma NewNames(base: seq<Module>, init: seq<string>, f: string, name: string, ms: seq<Module>)
    requires KeepsBase(base, ms) && NamesInOrder(base, init, ms)
    requires IsJavaFile(f) && ModuleName(f) == Some(name) && IndexOfName(ms, name) == |ms|
    ensures NamesInOrder(base, init + [f], ms + [Module(name, [f])])
  {
    assert (init + [f])[..|init|] == init;
    var r := AddedNames(base, init);
    forall j | 0 <= j < |base| ensures base[j].name != name {
      assert ms[j].name == base[j].name;
    }
    forall i | 0 <= i < |r| ensures r[i] != name {
      assert ms[|base| + i].name == r[i];
    }
    assert AddedNames(base, init + [f]) == r + [name];
  }

  lemma FilesOfModuleSnoc(init: seq<string>, f: string, name: string)
    ensures FilesOfModule(init + [f], name) ==
      FilesOfModule(init, name) + (if IsJavaFile(f) && ModuleName(f) == Some(name) then [f] else [])
  {
    assert (init + [f])[..|init|] == init;
  }

  lemma IndexOfNameSameNames(ms: seq<Module>, ms2: seq<Module>, x: string)
    requires |ms| == |ms2| && forall k :: 0 <= k < |ms| ==> ms[k].name == ms2[k].name
    ensures IndexOfName(ms, x) == IndexOfName(ms2, x)
  {
    var a, b := IndexOfName(ms, x), IndexOfName(ms2, x);
    assert a < |ms| ==> ms2[a].name == x;
    assert b < |ms2| ==> ms[b].name == x;
  }

  lemma IndexOfNameAppend(ms: seq<Module>, m: Module, x: string)
    ensures IndexOfName(ms + [m], x) ==
      if IndexOfName(ms, x) < |ms| then IndexOfName(ms, x)
      else if m.name == x then |ms| else |ms| + 1
  {
    var a, b := IndexOfName(ms, x), IndexOfName(ms + [m], x);
    assert forall j :: 0 <= j < |ms| ==> (ms + [m])[j] == ms[j];
    assert (ms + [m])[|ms|] == m;
    assert a < |ms| ==> (ms + [m])[a].name == x;
    assert b < |ms| ==> ms[b].name == x;
  }

  lemma GroupedEmpty(base: seq<Module>)
    ensures Grouped(base, [], base)
  {
    forall k | 0 <= k < |base| ensures base[k].sourceFiles == BaseFiles(base, k) + [] { }
  }

  lemma GroupedSkip(base: seq<Module>, init: seq<string>, f: string, ms: seq<Module>)
    requires Grouped(base, init, ms) && !IsJavaFile(f)
    ensures Grouped(base, init + [f], ms)
  {
    AddedNamesSkip(base, init, f);
    forall name ensures FilesOfModule(init + [f], name) == FilesOfModule(init, name) {
      FilesOfModuleSnoc(init, f, name);
    }
  }

  lemma PlacedSnoc(init: seq<string>, f: string, ms: seq<Module>)
    requires AllPlaced(init, ms) && IsJavaFile(f) && ModuleName(f).Some?
    requires IndexOfName(ms, ModuleName(f).value) < |ms|
    ensures AllPlaced(init + [f], ms)
  {
    forall g | g in init + [f] && IsJavaFile(g)
      ensures ModuleName(g).Some? && IndexOfName(ms, ModuleName(g).value) < |ms|
    {
      if g != f { assert g in init; }
    }
  }

  /** A `.java` file joins the first existing module of its name. */
  lemma GroupedJoin(base: seq<Module>, init: seq<string>, f: string, name: string, ms: seq<Module>)
    requires Grouped(base, init, ms) && IsJavaFile(f) && ModuleName(f) == Some(name)
    requires IndexOfName(ms, name) < |ms|
    ensures Grouped(base, init + [f], AddToModule(ms, name, f))
  {
    JoinKeepsNames(base, f, name, ms);
    JoinNames(base, init, f, name, ms);
    JoinHoldsItsFiles(base, init, f, name, ms);
    PlacedSnoc(init, f, ms);
    JoinPlaced(init + [f], f, name, ms);
  }

  /** Joining a module keeps every name and every first index. */
  lemma JoinKeepsNames(base: seq<Module>, f: string, name: string, ms: seq<Module>)
    requires KeepsBase(base, ms) && AddedNamesFresh(base, ms) && IndexOfName(ms, name) < |ms|
    ensures KeepsBase(base, AddToModule(ms, name, f)) && AddedNamesFresh(base, AddToModule(ms, name, f))
  {
    var ms2 := AddToModule(ms, name, f);
    forall k | |base| <= k < |ms2| ensures IndexOfName(ms2, ms2[k].name) == k {
      JoinSameIndex(ms, name, f, ms2[k].name);
    }
  }

  /** Joining a module changes no first index. */
  lemma JoinSameIndex(ms: seq<Module>, name: string, f: string, x: string)
    requires IndexOfName(ms, name) < |ms|
    ensures |AddToModule(ms, name, f)| == |ms|
    ensures forall k :: 0 <= k < |ms| ==> AddToModule(ms, name, f)[k].name == ms[k].name
    ensures IndexOfName(AddToModule(ms, name, f), x) == IndexOfName(ms, x)
  {
    IndexOfNameSameNames(ms, AddToModule(ms, name, f), x);
  }

  /** Joining a module leaves every `.java` file placed. */
  lemma JoinPlaced(files: seq<string>, f: string, name: string, ms: seq<Module>)
    requires AllPlaced(files, ms) && IndexOfName(ms, name) < |ms|
    ensures AllPlaced(files, AddToModule(ms, name, f))
  {
    var ms2 := AddToModule(ms, name, f);
    forall g | g in files && IsJavaFile(g)
      ensures ModuleName(g).Some? && IndexOfName(ms2, ModuleName(g).value) < |ms2|
    {
      JoinSameIndex(ms, name, f, ModuleName(g).value);
    }
  }

  lemma JoinHoldsItsFiles(base: seq<Module>, init: seq<string>, f: string, name: string, ms: seq<Module>)
    requires HoldsItsFiles(base, init, ms) && IsJavaFile(f) && ModuleName(f) == Some(name)
    requires IndexOfName(ms, name) < |ms|
    ensures HoldsItsFiles(base, init + [f], AddToModule(ms, name, f))
  {
    var ms2 := AddToModule(ms, name, f);
    forall k | 0 <= k < |ms2|
      ensures ms2[k].sourceFiles == BaseFiles(base, k) +
        (if IndexOfName(ms2, ms2[k].name) == k then FilesOfModule(init + [f], ms2[k].name) else [])
    {
      JoinAt(base, init, f, name, ms, k);
    }
  }

  lemma JoinAt(base: seq<Module>, init: seq<string>, f: string, name: string, ms: seq<Module>, k: nat)
    requires IsJavaFile(f) && ModuleName(f) == Some(name)
    requires IndexOfName(ms, name) < |ms| && k < |ms|
    requires ms[k].sourceFiles == BaseFiles(base, k) +
      (if IndexOfName(ms, ms[k].name) == k then FilesOfModule(init, ms[k].name) else [])
    ensures var ms2 := AddToModule(ms, name, f);
      ms2[k].sourceFiles == BaseFiles(base, k) +
        (if IndexOfName(ms2, ms2[k].name) == k then FilesOfModule(init + [f], ms2[k].name) else [])
  {
    var k0 := IndexOfName(ms, name);
    var ms2 := AddToModule(ms, name, f);
    JoinSameIndex(ms, name, f, ms2[k].name);
    if k == k0 {
      FilesOfModuleSnoc(init, f, name);
      PiecesRegroup(BaseFiles(base, k), FilesOfModule(init, name), [f]);
    } else {
      assert ms2[k] == ms[k];
      assert IndexOfName(ms, ms[k].name) == k ==> ms[k].name != name;
      FilesOfModuleSnoc(init, f, ms[k].name);
    }
  }

  /** A `.java` file whose module name no module has yet starts a new module at the end. */
  lemma GroupedNew(base: seq<Module>, init: seq<string>, f: string, name: string, ms: seq<Module>)
    requires Grouped(base, init, ms) && IsJavaFile(f) && ModuleName(f) == Some(name)
    requires IndexOfName(ms, name) == |ms|
    ensures Grouped(base, init + [f], AddToModule(ms, name, f))
  {
    var m := Module(name, [f]);
    var ms2 := AddToModule(ms, name, f);
    assert ms2 == ms + [m];
    assert KeepsBase(base, ms2) by {
      assert forall k :: 0 <= k < |ms| ==> ms2[k] == ms[k];
    }
    assert AddedNamesFresh(base, ms2) by {
      forall k | |base| <= k < |ms2| ensures IndexOfName(ms2, ms2[k].name) == k {
        IndexOfNameAppend(ms, m, ms2[k].name);
        if k < |ms| { assert ms2[k] == ms[k]; }
      }
    }
    NewNames(base, init, f, name, ms);
    NoFilesForMissingName(init, name, ms);
    NewHoldsItsFiles(base, init, f, name, ms);
    forall g | g in init + [f] && IsJavaFile(g)
      ensures ModuleName(g).Some? && IndexOfName(ms2, ModuleName(g).value) < |ms2|
    {
      IndexOfNameAppend(ms, m, ModuleName(g).value);
      if g != f { assert g in init; }
    }
  }

  lemma NewHoldsItsFiles(base: seq<Module>, init: seq<string>, f: string, name: string, ms: seq<Module>)
    requires KeepsBase(base, ms) && HoldsItsFiles(base, init, ms) && FilesOfModule(init, name) == []
    requires IsJavaFile(f) && ModuleName(f) == Some(name)
    requires IndexOfName(ms, name) == |ms|
    ensures HoldsItsFiles(base, init + [f], AddToModule(ms, name, f))
  {
    var ms2 := AddToModule(ms, name, f);
    forall k | 0 <= k < |ms2|
      ensures ms2[k].sourceFiles == BaseFiles(base, k) +
        (if IndexOfName(ms2, ms2[k].name) == k then FilesOfModule(init + [f], ms2[k].name) else [])
    {
      NewAtIndex(base, init, f, name, ms, k);
    }
  }

  /** What module `k` holds once a new module is added at the end. */
  lemma NewAtIndex(base: seq<Module>, init: seq<string>, f: string, name: string, ms: seq<Module>, k: nat)
    requires KeepsBase(base, ms) && FilesOfModule(init, name) == []
    requires IsJavaFile(f) && ModuleName(f) == Some(name)
    requires IndexOfName(ms, name) == |ms| && k <= |ms|
    requires k < |ms| ==>
               ms[k].sourceFiles == BaseFiles(base, k) +
                 (if IndexOfName(ms, ms[k].name) == k then FilesOfModule(init, ms[k].name) else [])
    ensures var ms2 := AddToModule(ms, name, f);
      ms2[k].sourceFiles == BaseFiles(base, k) +
        (if IndexOfName(ms2, ms2[k].name) == k then FilesOfModule(init + [f], ms2[k].name) else [])
  {
    if k < |ms| {
      OldAfterNew(base, init, f, name, ms, k);
    } else {
      NewAt(base, init, f, name, ms);
    }
  }

  /** A module that was there before a new one is added keeps what it holds. */
  lemma OldAfterNew(base: seq<Module>, init: seq<string>, f: string, name: string, ms: seq<Module>, k: nat)
    requires IsJavaFile(f) && ModuleName(f) == Some(name)
    requires IndexOfName(ms, name) == |ms| && k < |ms|
    requires ms[k].sourceFiles == BaseFiles(base, k) +
      (if IndexOfName(ms, ms[k].name) == k then FilesOfModule(init, ms[k].name) else [])
    ensures var ms2 := AddToModule(ms, name, f);
      ms2[k].sourceFiles == BaseFiles(base, k) +
        (if IndexOfName(ms2, ms2[k].name) == k then FilesOfModule(init + [f], ms2[k].name) else [])
  {
    var m := Module(name, [f]);
    var ms2 := AddToModule(ms, name, f);
    assert ms2 == ms + [m];
    assert ms2[k] == ms[k];
    IndexOfNameAppend(ms, m, ms[k].name);
    assert IndexOfName(ms, ms[k].name) <= k;
    assert ms[k].name != name;
    FilesOfModuleSnoc(init, f, ms[k].name);
  }

  /** The new module holds just the new file. */
  lemma NewAt(base: seq<Module>, init: seq<string>, f: string, name: string, ms: seq<Module>)
    requires KeepsBase(base, ms) && IsJavaFile(f) && ModuleName(f) == Some(name)
    requires IndexOfName(ms, name) == |ms| && FilesOfModule(init, name) == []
    ensures var ms2 := AddToModule(ms, name, f);
      ms2[|ms|].sourceFiles == BaseFiles(base, |ms|) +
        (if IndexOfName(ms2, ms2[|ms|].name) == |ms| then FilesOfModule(init + [f], ms2[|ms|].name) else [])
  {
    var m := Module(name, [f]);
    var ms2 := AddToModule(ms, name, f);
    assert ms2 == ms + [m];
    IndexOfNameAppend(ms, m, name);
    FilesOfModuleSnoc(init, f, name);
    assert BaseFiles(base, |ms|) == [];
  }

  /** A module name that no module has has no `.java` file either. */
  lemma NoFilesForMissingName(files: seq<string>, name: string, ms: seq<Module>)
    requires AllPlaced(files, ms) && IndexOfName(ms, name) == |ms|
    ensures FilesOfModule(files, name) == []
  {
  }

  /** `Group` yields what `Grouped` describes. */
  lemma {:induction false} GroupIsGrouped(base: seq<Module>, files: seq<string>)
    requires Group(base, files).Ok?
    ensures Grouped(base, files, Group(base, files).value)
    decreases |files|
  {
    if |files| == 0 {
      GroupedEmpty(base);
    } else {
      var init := files[..|files| - 1];
      var f := files[|files| - 1];
      assert files == init + [f];
      GroupIsGrouped(base, init);
      var ms := Group(base, init).value;
      if !IsJavaFile(f) {
        GroupedSkip(base, init, f, ms);
      } else {
        var name := ModuleName(f).value;
        if IndexOfName(ms, name) < |ms| {
          GroupedJoin(base, init, f, name, ms);
        } else {
          GroupedNew(base, init, f, name, ms);
        }
      }
    }
  }

  /** `find_modules`: dependency modules keep their order and names at the front,
      and the package's own `.java` files are grouped into the result as `Grouped` says. */
  lemma ModulesGrouping(b: Bobje)
    requires Modules(b).Ok?
    ensures DependencyModules(b, |b.dependencies|).Ok?
    ensures Grouped(DependencyModules(b, |b.dependencies|).value, b.sourceFiles, Modules(b).value)
  {
    GroupIsGrouped(DependencyModules(b, |b.dependencies|).value, b.sourceFiles);
  }

  /** The dependency packages' modules stay at the front, in order, with their names. */
  lemma DependencyModulesKept(b: Bobje)
    requires Modules(b).Ok?
    ensures DependencyModules(b, |b.dependencies|).Ok?
    ensures KeepsBase(DependencyModules(b, |b.dependencies|).value, Modules(b).value)
  {
    ModulesGrouping(b);
  }

  /** A `.java` file that none of the starting modules holds lands in exactly one
      module: the first one named after its module name. */
  lemma JavaFileInExactlyOneModule(base: seq<Module>, files: seq<string>, f: string)
    requires Group(base, files).Ok?
    requires f in files && IsJavaFile(f)
    requires forall k :: 0 <= k < |base| ==> f !in base[k].sourceFiles
    ensures ModuleName(f).Some?
    ensures var ms := Group(base, files).value;
      forall k :: 0 <= k < |ms| ==> (f in ms[k].sourceFiles <==> k == IndexOfName(ms, ModuleName(f).value))
  {
    GroupIsGrouped(base, files);
    var ms := Group(base, files).value;
    var name := ModuleName(f).value;
    forall k | 0 <= k < |ms| ensures f in ms[k].sourceFiles <==> k == IndexOfName(ms, name) {
      var extra := if IndexOfName(ms, ms[k].name) == k then FilesOfModule(files, ms[k].name) else [];
      assert ms[k].sourceFiles == BaseFiles(base, k) + extra;
      assert f !in BaseFiles(base, k);
      if k == IndexOfName(ms, name) {
        assert f in FilesOfModule(files, name);
      }
    }
  }

  /** A package with no `.java` source adds no module and changes none. */
  lemma NoJavaSourcesNoModules(base: seq<Module>, files: seq<string>)
    requires forall i :: 0 <= i < |files| ==> !IsJavaFile(files[i])
    ensures Group(base, files) == Ok(base)
  {
    GroupIsGrouped(base, files);
    var ms := Group(base, files).value;
    forall k | 0 <= k < |ms| ensures ms[k] == base[k] {
      assert FilesOfModule(files, ms[k].name) == [];
    }
    assert ms == base;
  }
}
