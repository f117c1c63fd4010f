/** Compile tasks: `detect_java` and `generate_javac_tasks`. */
module JavaCompileTasks {
  import opened Wrappers
  import opened Strings
  import opened Bob
  import opened Exec
  import opened JavaNames
  import opened JavaModules
  import opened JavaModuleGrouping
  import opened JavaDependencies

  /** `detect_java`: some source file of the package ends in `.java`. */
  predicate DetectJava(b: Bobje) {
    exists i :: 0 <= i < |b.sourceFiles| && IsJavaFile(b.sourceFiles[i])
  }

  /** The debug-information flag of a profile. */
  function DebugFlag(p: Profile): string {
    if p == Release then "-g:none" else "-g"
  }

  /** The `javac` flags: lint as errors, the profile's debug flag, then the
      manifest's own flags when there are any. */
  function JavacFlags(b: Bobje): string {
    var flags := "-Xlint -Werror " + DebugFlag(b.profile);
    if b.javacFlags != "" then flags + " " + b.javacFlags else flags
  }

  /** The words the manifest's own flags contribute. */
  function UserFlagWords(b: Bobje): seq<string> {
    if b.javacFlags == "" then [] else Split(b.javacFlags, " ")
  }

  /** The class path: the classes directory, then the manifest's entries, `:`-separated. */
  function Classpath(b: Bobje): string {
    ClassesDir(b) + (if b.classpath != [] then ":" + Join(b.classpath, ":") else "")
  }

  /** `{classes_dir}/{name with '.' replaced by '/'}`: where a module's classes go. */
  function ModuleDir(classesDir: string, name: string): string {
    classesDir + "/" + Replace(name, {'.'}, '/')
  }

  /** The class directory of each of `ms`, in order. */
  function ModuleDirs(classesDir: string, ms: seq<Module>): seq<string> {
    seq(|ms|, i requires 0 <= i < |ms| => ModuleDir(classesDir, ms[i].name))
  }

  /** The items of `dirs`, in order, that are not in `seen` and not met earlier in `dirs`. */
  function Fresh(seen: seq<string>, dirs: seq<string>): seq<string>
    decreases |dirs|
  {
    if |dirs| == 0 then []
    else if dirs[0] in seen then Fresh(seen, dirs[1..])
    else [dirs[0]] + Fresh(seen + [dirs[0]], dirs[1..])
  }

  /** `Fresh` grows by its last item when that item is new. */
  lemma {:induction false} FreshSnoc(seen: seq<string>, dirs: seq<string>, d: string)
    ensures Fresh(seen, dirs + [d]) ==
      Fresh(seen, dirs) + (if d in seen || d in Fresh(seen, dirs) then [] else [d])
    decreases |dirs|
  {
    if |dirs| == 0 {
      assert dirs + [d] == [d];
    } else {
      var x := dirs[0];
      assert (dirs + [d])[0] == x && (dirs + [d])[1..] == dirs[1..] + [d];
      if x in seen {
        FreshSnoc(seen, dirs[1..], d);
      } else {
        FreshSnoc(seen + [x], dirs[1..], d);
        var t := Fresh(seen + [x], dirs[1..]);
        FreshRegroup(x, t, if d in seen + [x] || d in t then [] else [d]);
      }
    }
  }

  lemma FreshRegroup(x: string, t: seq<string>, u: seq<string>)
    ensures [x] + (t + u) == ([x] + t) + u
  {
  }

  /** `inputs` followed by each of `dirs` that is not already there when its turn comes. */
  function AppendMissing(inputs: seq<string>, dirs: seq<string>): (r: seq<string>)
    ensures r == inputs + Fresh(inputs, dirs)
    ensures |inputs| <= |r| && r[..|inputs|] == inputs
    ensures forall x :: x in r <==> x in inputs || x in dirs
    ensures forall j :: |inputs| <= j < |r| ==> r[j] !in inputs
    ensures forall j, l :: |inputs| <= j < l < |r| ==> r[j] != r[l]
    decreases |dirs|
  {
    if |dirs| == 0 then inputs
    else
      var r := AppendMissing(inputs, dirs[..|dirs| - 1]);
      var d := dirs[|dirs| - 1];
      assert dirs == dirs[..|dirs| - 1] + [d];
      FreshSnoc(inputs, dirs[..|dirs| - 1], d);
      if d in r then r else r + [d]
  }

  /** The shell command compiling one module. */
  function JavacCommand(b: Bobje, m: Module): string {
    "javac " + JavacFlags(b) + " -cp " + Classpath(b) + " -d " + ClassesDir(b) + " " + Join(m.sourceFiles, " ")
  }

  /** The compile task of module `m`: it reads the module's sources and the class
      directories of the modules it imports, and writes the module's class directory. */
  function JavacTask(b: Bobje, deps: DependencyMap, m: Module): Task {
    Task(JavacCommand(b, m),
         AppendMissing(m.sourceFiles, ModuleDirs(ClassesDir(b), Entry(deps, m.name))),
         [ModuleDir(ClassesDir(b), m.name)])
  }

  /** The compile tasks for the first `n` of `ms`. */
  function TasksFor(b: Bobje, deps: DependencyMap, ms: seq<Module>, n: nat): seq<Task>
    requires n <= |ms|
  {
    seq(n, k requires 0 <= k < n => JavacTask(b, deps, ms[k]))
  }

  lemma TasksForSnoc(b: Bobje, deps: DependencyMap, ms: seq<Module>, i: nat)
    requires i < |ms|
    ensures TasksFor(b, deps, ms, i + 1) == TasksFor(b, deps, ms, i) + [JavacTask(b, deps, ms[i])]
  {
  }

  /** What `generate_javac_tasks` registers: one compile task per module, in module
      order; `Err` where `find_modules` panics. */
  function JavacTasks(b: Bobje, fs: FileSystem): Result<seq<Task>> {
    match Modules(b)
    case Err(e) => Err(e)
    case Ok(ms) => Ok(TasksFor(b, Dependencies(ms, fs, |ms|), ms, |ms|))
  }

  /** The inputs of one compile task: the sources, then the class directory of each
      dependency module not yet listed. */
  method BuildInputs(sourceFiles: seq<string>, classesDir: string, dependencies: seq<Module>)
    returns (inputs: seq<string>)
    ensures inputs == AppendMissing(sourceFiles, ModuleDirs(classesDir, dependencies))
  {
    var dirs := ModuleDirs(classesDir, dependencies);
    inputs := sourceFiles;
    for i := 0 to |dependencies|
      invariant inputs == AppendMissing(sourceFiles, dirs[..i])
    {
      var dir := ModuleDir(classesDir, dependencies[i].name);
      assert dirs[..i + 1][..i] == dirs[..i];
      if dir !in inputs {
        inputs := inputs + [dir];
      }
    }
    assert dirs[..|dependencies|] == dirs;
  }

  /** `generate_javac_tasks`: registers `JavacTasks(b, fs)` after what `ex` already
      holds; when `find_modules` panics, nothing is registered. */
  method GenerateJavacTasks(b: Bobje, fs: FileSystem, ex: Executor) returns (r: Result<()>)
    modifies ex
    ensures r.Ok? <==> JavacTasks(b, fs).Ok?
    ensures r.Ok? ==> ex.tasks == old(ex.tasks) + JavacTasks(b, fs).value
    ensures r.Err? ==> r.error == JavacTasks(b, fs).error && ex.tasks == old(ex.tasks)
  {
    var classesDir := ClassesDir(b);
    var found := FindModules(b);
    if found.Err? {
      return Err(found.error);
    }
    var modules := found.value;
    var moduleDeps := FindDependencies(modules, fs);
    var javacFlags := JavacFlags(b);
    var classpath := Classpath(b);
    for i := 0 to |modules|
      invariant ex.tasks == old(ex.tasks) + TasksFor(b, moduleDeps, modules, i)
    {
      var m := modules[i];
      var inputs := BuildInputs(m.sourceFiles, classesDir, Entry(moduleDeps, m.name));
      ex.AddTaskCmd(
        "javac " + javacFlags + " -cp " + classpath + " -d " + classesDir + " " + Join(m.sourceFiles, " "),
        inputs,
        [ModuleDir(classesDir, m.name)]);
      TasksForSnoc(b, moduleDeps, modules, i);
    }
    return Ok(());
  }

  /** `detect_java` decides whether the package adds modules: without `.java`
      sources the modules are those of the dependencies, unchanged; with them,
      every such file has a module name and a module of that name exists. */
  lemma DetectJavaModules(b: Bobje)
    requires Modules(b).Ok?
    ensures DependencyModules(b, |b.dependencies|).Ok?
    ensures !DetectJava(b) ==> Modules(b) == DependencyModules(b, |b.dependencies|)
    ensures DetectJava(b) ==> |Modules(b).value| > 0
    ensures forall i :: 0 <= i < |b.sourceFiles| && IsJavaFile(b.sourceFiles[i]) ==>
      ModuleName(b.sourceFiles[i]).Some? &&
      IndexOfName(Modules(b).value, ModuleName(b.sourceFiles[i]).value) < |Modules(b).value|
  {
    ModulesGrouping(b);
    var ds := DependencyModules(b, |b.dependencies|).value;
    if !DetectJava(b) {
      NoJavaSourcesNoModules(ds, b.sourceFiles);
    } else {
      var i :| 0 <= i < |b.sourceFiles| && IsJavaFile(b.sourceFiles[i]);
      assert b.sourceFiles[i] in b.sourceFiles;
    }
    forall i | 0 <= i < |b.sourceFiles| && IsJavaFile(b.sourceFiles[i])
      ensures ModuleName(b.sourceFiles[i]).Some? && IndexOfName(Modules(b).value, ModuleName(b.sourceFiles[i]).value) < |Modules(b).value|
    {
      assert b.sourceFiles[i] in b.sourceFiles;
    }
  }

  /** A literal word free of spaces splits into itself. */
  lemma WordSplit(w: string)
    requires ' ' !in w
    ensures Split(w, " ") == [w]
  {
    CharNotContained(w, ' ');
    SplitWord(w, " ");
  }

  /** The flag words: `-Xlint`, `-Werror`, the profile's debug flag, then the words
      of the manifest's flags when there are any. */
  lemma JavacFlagWords(b: Bobje)
    ensures Split(JavacFlags(b), " ") == ["-Xlint", "-Werror", DebugFlag(b.profile)] + UserFlagWords(b)
  {
    var g, user := DebugFlag(b.profile), b.javacFlags;
    var tail := if user != "" then g + " " + user else g;
    assert Split(tail, " ") == [g] + UserFlagWords(b) by {
      WordSplit(g);
      if user != "" {
        SplitConcat(g, " ", user);
      }
    }
    FlagsRegrouped(g, user);
    LeadingWords("-Xlint", "-Werror", tail);
    PiecesRegroup(["-Xlint", "-Werror"], [g], UserFlagWords(b));
  }

  /** The flags string, regrouped one space at a time. */
  lemma FlagsRegrouped(g: string, user: string)
    ensures (if user != "" then "-Xlint -Werror " + g + " " + user else "-Xlint -Werror " + g) ==
      "-Xlint" + " " + ("-Werror" + " " + (if user != "" then g + " " + user else g))
  {
  }

  /** A space-free word in front of `rest` splits off as one piece. */
  lemma OneWord(w: string, rest: string)
    requires ' ' !in w
    ensures Split(w + " " + rest, " ") == [w] + Split(rest, " ")
  {
    CharNotContained(w, ' ');
    SplitAfterHead(w, " ", rest);
  }

  /** Two space-free words in front of `tail` split off as two pieces. */
  lemma LeadingWords(w1: string, w2: string, tail: string)
    requires ' ' !in w1 && ' ' !in w2
    ensures Split(w1 + " " + (w2 + " " + tail), " ") == [w1, w2] + Split(tail, " ")
  {
    OneWord(w2, tail);
    OneWord(w1, w2 + " " + tail);
    PiecesRegroup([w1], [w2], Split(tail, " "));
  }

  /** The class path lists the classes directory, then the manifest's entries, as
      long as none of them contains `:`. */
  lemma ClasspathEntries(b: Bobje)
    requires ':' !in ClassesDir(b)
    requires forall e :: e in b.classpath ==> ':' !in e
    ensures Split(Classpath(b), ":") == [ClassesDir(b)] + b.classpath
  {
    var cd := ClassesDir(b);
    if b.classpath == [] {
      assert Classpath(b) == cd;
      CharNotContained(cd, ':');
      SplitWord(cd, ":");
    } else {
      assert Classpath(b) == cd + ":" + Join(b.classpath, ":");
      CharNotContained(cd, ':');
      NoneContains(b.classpath, ':');
      HeadThenJoined(cd, b.classpath);
    }
  }

  /** `head:e1:...:en` splits back into `head` and the entries. */
  lemma HeadThenJoined(head: string, entries: seq<string>)
    requires !Contains(head, ":") && entries != []
    requires forall e :: e in entries ==> !Contains(e, ":")
    ensures Split(head + ":" + Join(entries, ":"), ":") == [head] + entries
  {
    JoinSplit(entries, ":");
    SplitAfterHead(head, ":", Join(entries, ":"));
  }

  /** The compile command line, word by word, when no path in it has a space:
      the module's sources are passed as separate arguments after the flags,
      the class path and the output directory. */
  lemma JavacCommandWords(b: Bobje, m: Module)
    requires ' ' !in ClassesDir(b) && ' ' !in Classpath(b)
    requires m.sourceFiles != [] && forall f :: f in m.sourceFiles ==> ' ' !in f
    ensures Split(JavacCommand(b, m), " ") ==
      ["javac"] + ["-Xlint", "-Werror", DebugFlag(b.profile)] + UserFlagWords(b) +
      ["-cp", Classpath(b), "-d", ClassesDir(b)] + m.sourceFiles
  {
    var cd, cp, files := ClassesDir(b), Classpath(b), Join(m.sourceFiles, " ");
    var flags := JavacFlags(b);
    CommandRegrouped(flags, cp, cd, files);
    SourcesAfterDirectory(cd, m.sourceFiles);
    JavacFlagWords(b);
    CommandShape("javac", flags, "-cp", cp, "-d", cd + " " + files);
    WordsRegrouped(["-Xlint", "-Werror", DebugFlag(b.profile)], UserFlagWords(b), cp, cd, m.sourceFiles);
  }

  lemma WordsRegrouped(fixed: seq<string>, user: seq<string>, cp: string, cd: string, files: seq<string>)
    ensures ["javac"] + (fixed + user) + ["-cp", cp, "-d"] + ([cd] + files) ==
      ["javac"] + fixed + user + ["-cp", cp, "-d", cd] + files
  {
  }

  /** The compile command's format string, regrouped one space at a time. */
  lemma CommandRegrouped(flags: string, cp: string, cd: string, files: string)
    ensures "javac " + flags + " -cp " + cp + " -d " + cd + " " + files ==
      "javac" + " " + (flags + " " + ("-cp" + " " + (cp + " " + ("-d" + " " + (cd + " " + files)))))
  {
  }

  /** `dir f1 ... fn` splits into the directory and the files. */
  lemma SourcesAfterDirectory(dir: string, files: seq<string>)
    requires ' ' !in dir
    requires files != [] && forall f :: f in files ==> ' ' !in f
    ensures Split(dir + " " + Join(files, " "), " ") == [dir] + files
  {
    NoneContains(files, ' ');
    JoinSplit(files, " ");
    OneWord(dir, Join(files, " "));
  }

  /** `{w0} {flags} {w1} {cp} {w2} {rest}`, word by word, for space-free `w0`, `w1`, `cp` and `w2`. */
  lemma CommandShape(w0: string, flags: string, w1: string, cp: string, w2: string, rest: string)
    requires ' ' !in w0 && ' ' !in w1 && ' ' !in cp && ' ' !in w2
    ensures Split(w0 + " " + (flags + " " + (w1 + " " + (cp + " " + (w2 + " " + rest)))), " ") ==
      [w0] + Split(flags, " ") + [w1, cp, w2] + Split(rest, " ")
  {
    var t := w1 + " " + (cp + " " + (w2 + " " + rest));
    ThreeLeadingWords(w1, cp, w2, rest);
    SplitConcat(flags, " ", t);
    OneWord(w0, flags + " " + t);
    PiecesRegroup4([w0], Split(flags, " "), [w1, cp, w2], Split(rest, " "));
  }

  /** Three space-free words in front of `rest` split off as three pieces. */
  lemma ThreeLeadingWords(w1: string, w2: string, w3: string, rest: string)
    requires ' ' !in w1 && ' ' !in w2 && ' ' !in w3
    ensures Split(w1 + " " + (w2 + " " + (w3 + " " + rest)), " ") == [w1, w2, w3] + Split(rest, " ")
  {
    LeadingWords(w2, w3, rest);
    OneWord(w1, w2 + " " + (w3 + " " + rest));
    PiecesRegroup([w1], [w2, w3], Split(rest, " "));
  }

  /** `generate_javac_tasks` emits one compile task per module, in module order,
      dependency modules included: each writes its module's class directory, and
      reads the module's sources first. */
  lemma JavacTaskPerModule(b: Bobje, fs: FileSystem)
    requires JavacTasks(b, fs).Ok?
    ensures Modules(b).Ok?
    ensures var ms, ts := Modules(b).value, JavacTasks(b, fs).value;
      && |ts| == |ms|
      && (forall k :: 0 <= k < |ms| ==> ts[k].outputs == [ModuleDir(ClassesDir(b), ms[k].name)])
      && (forall k :: 0 <= k < |ms| ==>
            |ms[k].sourceFiles| <= |ts[k].inputs| && ts[k].inputs[..|ms[k].sourceFiles|] == ms[k].sourceFiles)
  {
  }

  /** The dependency packages' modules are compiled again by the depending package:
      the first compile tasks write exactly their class directories, in order. */
  lemma DependencyModulesRecompiled(b: Bobje, fs: FileSystem)
    requires JavacTasks(b, fs).Ok?
    ensures DependencyModules(b, |b.dependencies|).Ok?
    ensures var ds, ts := DependencyModules(b, |b.dependencies|).value, JavacTasks(b, fs).value;
      |ds| <= |ts| && forall k :: 0 <= k < |ds| ==> ts[k].outputs == [ModuleDir(ClassesDir(b), ds[k].name)]
  {
    JavacTaskPerModule(b, fs);
    DependencyModulesKept(b);
    var ds, ms := DependencyModules(b, |b.dependencies|).value, Modules(b).value;
    forall k | 0 <= k < |ds| ensures ms[k].name == ds[k].name {
    }
  }

  /** A path is in the class directories of `ms` exactly when it is the class
      directory of one of them. */
  lemma InModuleDirs(classesDir: string, ms: seq<Module>, x: string)
    ensures x in ModuleDirs(classesDir, ms) <==> exists e :: e in ms && x == ModuleDir(classesDir, e.name)
  {
    var dirs := ModuleDirs(classesDir, ms);
    if x in dirs {
      var i :| 0 <= i < |dirs| && dirs[i] == x;
      assert ms[i] in ms;
    }
    if e :| e in ms && x == ModuleDir(classesDir, e.name) {
      var i :| 0 <= i < |ms| && ms[i] == e;
      assert dirs[i] == x;
    }
  }

  /** The inputs of the compile task of module `k` are its sources and the outputs
      of the compile tasks of the modules it imports, and nothing else. */
  lemma JavacInputsAreImportedOutputs(b: Bobje, fs: FileSystem, k: nat, x: string)
    requires JavacTasks(b, fs).Ok?
    requires k < |Modules(b).value|
    ensures Modules(b).Ok?
    ensures var ms, ts := Modules(b).value, JavacTasks(b, fs).value;
      x in ts[k].inputs <==>
        x in ms[k].sourceFiles ||
        exists j :: 0 <= j < |ms| && ImportEdge(ms, fs, |ms|, ms[k].name, ms[j]) && x in ts[j].outputs
  {
    var ms := Modules(b).value;
    InputsFromEdges(b, ms, fs, k, x);
  }

  /** `JavacInputsAreImportedOutputs` for any list of modules. */
  lemma InputsFromEdges(b: Bobje, ms: seq<Module>, fs: FileSystem, k: nat, x: string)
    requires k < |ms|
    ensures var ts := TasksFor(b, Dependencies(ms, fs, |ms|), ms, |ms|);
      x in ts[k].inputs <==>
        x in ms[k].sourceFiles ||
        exists j :: 0 <= j < |ms| && ImportEdge(ms, fs, |ms|, ms[k].name, ms[j]) && x in ts[j].outputs
  {
    var ts := TasksFor(b, Dependencies(ms, fs, |ms|), ms, |ms|);
    TaskInputs(b, Dependencies(ms, fs, |ms|), ms[k], x);
    if x in ts[k].inputs && x !in ms[k].sourceFiles {
      ImportedOutputIn(b, ms, fs, k, x);
    }
    if j :| 0 <= j < |ms| && ImportEdge(ms, fs, |ms|, ms[k].name, ms[j]) && x in ts[j].outputs {
      InputOfImported(b, ms, fs, k, j, x);
    }
  }

  /** An input that is not a source is the output of an imported module's task. */
  lemma ImportedOutputIn(b: Bobje, ms: seq<Module>, fs: FileSystem, k: nat, x: string)
    requires k < |ms|
    requires var ts := TasksFor(b, Dependencies(ms, fs, |ms|), ms, |ms|);
      x in ts[k].inputs && x !in ms[k].sourceFiles
    ensures var ts := TasksFor(b, Dependencies(ms, fs, |ms|), ms, |ms|);
      exists j :: 0 <= j < |ms| && ImportEdge(ms, fs, |ms|, ms[k].name, ms[j]) && x in ts[j].outputs
  {
    var deps := Dependencies(ms, fs, |ms|);
    var ts := TasksFor(b, deps, ms, |ms|);
    var cd, m := ClassesDir(b), ms[k];
    TaskInputs(b, deps, m, x);
    var e :| e in Entry(deps, m.name) && x == ModuleDir(cd, e.name);
    EdgeEntry(ms, fs, m.name, e);
    var j :| 0 <= j < |ms| && ms[j] == e;
    assert ts[j] == JavacTask(b, deps, ms[j]);
    assert ImportEdge(ms, fs, |ms|, m.name, ms[j]) && x in ts[j].outputs;
  }

  /** The output of an imported module's task is an input. */
  lemma InputOfImported(b: Bobje, ms: seq<Module>, fs: FileSystem, k: nat, j: nat, x: string)
    requires k < |ms| && j < |ms|
    requires var ts := TasksFor(b, Dependencies(ms, fs, |ms|), ms, |ms|);
      ImportEdge(ms, fs, |ms|, ms[k].name, ms[j]) && x in ts[j].outputs
    ensures x in TasksFor(b, Dependencies(ms, fs, |ms|), ms, |ms|)[k].inputs
  {
    var deps := Dependencies(ms, fs, |ms|);
    var ts := TasksFor(b, deps, ms, |ms|);
    var m := ms[k];
    EdgeEntry(ms, fs, m.name, ms[j]);
    assert ts[j] == JavacTask(b, deps, ms[j]);
    TaskInputs(b, deps, m, x);
    assert ms[j] in Entry(deps, m.name) && x == ModuleDir(ClassesDir(b), ms[j].name);
  }

  /** The inputs of a compile task: the module's sources and the class directories
      of the modules recorded under its name. */
  lemma TaskInputs(b: Bobje, deps: DependencyMap, m: Module, x: string)
    ensures x in JavacTask(b, deps, m).inputs <==>
      x in m.sourceFiles || exists e :: e in Entry(deps, m.name) && x == ModuleDir(ClassesDir(b), e.name)
  {
    InModuleDirs(ClassesDir(b), Entry(deps, m.name), x);
  }

  /** `DependenciesExact` for one key and one module. */
  lemma EdgeEntry(ms: seq<Module>, fs: FileSystem, key: string, e: Module)
    ensures e in Entry(Dependencies(ms, fs, |ms|), key) <==> ImportEdge(ms, fs, |ms|, key, e)
  {
    DependenciesExact(ms, fs, |ms|);
  }

  /** Two modules that import each other give two compile tasks each reading what
      the other writes: a cycle in the task graph. */
  lemma MutualImportsMakeTaskCycle(b: Bobje, fs: FileSystem, k: nat, j: nat)
    requires JavacTasks(b, fs).Ok?
    requires k < |Modules(b).value| && j < |Modules(b).value|
    requires var ms := Modules(b).value;
      ImportEdge(ms, fs, |ms|, ms[k].name, ms[j]) && ImportEdge(ms, fs, |ms|, ms[j].name, ms[k])
    ensures Modules(b).Ok?
    ensures var ts := JavacTasks(b, fs).value;
      ts[j].outputs[0] in ts[k].inputs && ts[k].outputs[0] in ts[j].inputs
  {
    var ts := JavacTasks(b, fs).value;
    JavacInputsAreImportedOutputs(b, fs, k, ts[j].outputs[0]);
    JavacInputsAreImportedOutputs(b, fs, j, ts[k].outputs[0]);
  }
}
