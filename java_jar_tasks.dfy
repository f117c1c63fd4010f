/** Archive tasks: `detect_jar` and `generate_jar_tasks`. */
module JavaJarTasks {
  import opened Wrappers
  import opened Strings
  import opened Bob
  import opened Exec
  import opened JavaNames
  import opened JavaModules
  import opened JavaMainClass
  import opened JavaCompileTasks

  /** `detect_jar`: the manifest has a `[package.metadata.jar]` table. */
  predicate DetectJar(b: Bobje) {
    b.jar.Some?
  }

  /** The main class the manifest names, if it names one. */
  predicate HasExplicitMainClass(b: Bobje) {
    b.jar.Some? && b.jar.value.mainClass.Some?
  }

  /** `{out_dir}/{name}-{version}.jar`. */
  function JarFile(b: Bobje): string {
    b.outDir + "/" + b.name + "-" + b.version + ".jar"
  }

  /** The entry point of the archive: the manifest's main class, else the one
      `find_main_class` finds; `Err(MissingMainClass)` where the source exits. */
  function ResolveMainClass(b: Bobje, fs: FileSystem): Result<string> {
    if HasExplicitMainClass(b) then Ok(b.jar.value.mainClass.value)
    else match MainClass(b, fs)
      case Err(e) => Err(e)
      case Ok(None) => Err(MissingMainClass)
      case Ok(Some(c)) => Ok(c)
  }

  /** The shell command packing the classes directory into the archive. */
  function JarCommand(b: Bobje, mainClass: string): string {
    "jar cfe " + JarFile(b) + " " + mainClass + " -C " + ClassesDir(b) + " ."
  }

  /** What `generate_jar_tasks` registers. `find_modules` runs first, so its panic
      wins over a missing main class. */
  function JarTask(b: Bobje, fs: FileSystem): Result<Task> {
    match Modules(b)
    case Err(e) => Err(e)
    case Ok(ms) =>
      match ResolveMainClass(b, fs)
      case Err(e) => Err(e)
      case Ok(mainClass) => Ok(Task(JarCommand(b, mainClass), ModuleDirs(ClassesDir(b), ms), [JarFile(b)]))
  }

  /** `generate_jar_tasks`: registers `JarTask(b, fs)` after what `ex` already holds;
      on a panic or an exit nothing is registered. */
  method GenerateJarTasks(b: Bobje, fs: FileSystem, ex: Executor) returns (r: Result<()>)
    modifies ex
    ensures r.Ok? <==> JarTask(b, fs).Ok?
    ensures r.Ok? ==> ex.tasks == old(ex.tasks) + [JarTask(b, fs).value]
    ensures r.Err? ==> r.error == JarTask(b, fs).error && ex.tasks == old(ex.tasks)
  {
    var classesDir := ClassesDir(b);
    var found := FindModules(b);
    if found.Err? {
      return Err(found.error);
    }
    var modules := found.value;
    var mainClass: string;
    if b.jar.Some? && b.jar.value.mainClass.Some? {
      mainClass := b.jar.value.mainClass.value;
    } else {
      var searched := FindMainClass(b, fs);
      if searched.Err? {
        return Err(searched.error);
      }
      if searched.value.None? {
        return Err(MissingMainClass);
      }
      mainClass := searched.value.value;
    }
    var jarFile := b.outDir + "/" + b.name + "-" + b.version + ".jar";
    ex.AddTaskCmd(
      "jar cfe " + jarFile + " " + mainClass + " -C " + classesDir + " .",
      ModuleDirs(classesDir, modules),
      [jarFile]);
    return Ok(());
  }

  /** Source file `k` is the first that declares an entry point. */
  predicate FirstWithMain(b: Bobje, fs: FileSystem, k: nat) {
    && k < |b.sourceFiles| && FileHasMain(fs, b.sourceFiles[k])
    && forall j :: 0 <= j < k ==> !FileHasMain(fs, b.sourceFiles[j])
  }

  /** How the entry point is chosen: a main class named in the manifest wins
      whatever the sources say; otherwise the first source file declaring `main`
      decides, and without one the archive cannot be built. */
  lemma MainClassResolution(b: Bobje, fs: FileSystem)
    ensures HasExplicitMainClass(b) ==> DetectJar(b) && ResolveMainClass(b, fs) == Ok(b.jar.value.mainClass.value)
    ensures !HasExplicitMainClass(b) ==>
      (ResolveMainClass(b, fs) == Err(MissingMainClass) <==>
        forall j :: 0 <= j < |b.sourceFiles| ==> !FileHasMain(fs, b.sourceFiles[j]))
    ensures forall k: nat :: !HasExplicitMainClass(b) && FirstWithMain(b, fs, k) ==>
      ResolveMainClass(b, fs) == match ClassName(b.sourceFiles[k])
        case None => Err(SourceOutsideRoot)
        case Some(c) => Ok(c)
  {
    NoMainClassIff(b, fs);
    forall k: nat | !HasExplicitMainClass(b) && FirstWithMain(b, fs, k)
      ensures ResolveMainClass(b, fs) == match ClassName(b.sourceFiles[k])
        case None => Err(SourceOutsideRoot)
        case Some(c) => Ok(c)
    {
      FirstMatchWins(b, fs, k);
    }
  }

  /** The archive task reads exactly what the compile tasks write, module by
      module, and writes the archive alone. */
  lemma JarReadsCompileOutputs(b: Bobje, fs: FileSystem)
    requires JarTask(b, fs).Ok?
    ensures JavacTasks(b, fs).Ok?
    ensures var jar, ts := JarTask(b, fs).value, JavacTasks(b, fs).value;
      && |jar.inputs| == |ts|
      && (forall k :: 0 <= k < |ts| ==> [jar.inputs[k]] == ts[k].outputs)
      && jar.outputs == [JarFile(b)]
  {
    JavacTaskPerModule(b, fs);
  }

  /** The archive command line, word by word, when no path in it has a space. */
  lemma JarCommandWords(b: Bobje, mainClass: string)
    requires ' ' !in JarFile(b) && ' ' !in mainClass && ' ' !in ClassesDir(b)
    ensures Split(JarCommand(b, mainClass), " ") == ["jar", "cfe", JarFile(b), mainClass, "-C", ClassesDir(b), "."]
  {
    var jar, cd := JarFile(b), ClassesDir(b);
    JarCommandRegrouped(jar, mainClass, cd);
    JarShape("jar", "cfe", jar, mainClass, "-C", cd, ".");
  }

  /** The archive command's format string, regrouped one space at a time. */
  lemma JarCommandRegrouped(jar: string, mainClass: string, cd: string)
    ensures "jar cfe " + jar + " " + mainClass + " -C " + cd + " ." ==
      "jar" + " " + ("cfe" + " " + (jar + " " + (mainClass + " " + ("-C" + " " + (cd + " " + ".")))))
  {
  }

  /** Seven space-free words joined by single spaces split back into themselves. */
  lemma JarShape(w0: string, w1: string, w2: string, w3: string, w4: string, w5: string, w6: string)
    requires ' ' !in w0 && ' ' !in w1 && ' ' !in w2 && ' ' !in w3 && ' ' !in w4 && ' ' !in w5 && ' ' !in w6
    ensures Split(w0 + " " + (w1 + " " + (w2 + " " + (w3 + " " + (w4 + " " + (w5 + " " + w6))))), " ") ==
      [w0, w1, w2, w3, w4, w5, w6]
  {
    var ws := [w0, w1, w2, w3, w4, w5, w6];
    assert Join(ws[6..], " ") == w6;
    assert Join(ws[5..], " ") == w5 + " " + w6;
    assert Join(ws[4..], " ") == w4 + " " + (w5 + " " + w6);
    assert Join(ws[3..], " ") == w3 + " " + Join(ws[4..], " ");
    assert Join(ws[2..], " ") == w2 + " " + Join(ws[3..], " ");
    assert Join(ws[1..], " ") == w1 + " " + Join(ws[2..], " ");
    assert Join(ws, " ") == w0 + " " + Join(ws[1..], " ");
    NoneContains(ws, ' ');
    JoinSplit(ws, " ");
  }
}
