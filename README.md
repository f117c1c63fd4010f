# The Java backend of bob, in Dafny

bob is a build tool that turns package manifests ("bobjes") into build tasks,
each a shell command with declared input and output paths, and hands them to a
task executor. This project models its Java backend, `bin/bob/src/tasks/java.rs`.

- **Detection.** `detect_java` and `detect_jar` decide whether a package has Java
  sources and whether it asks for a jar archive.
- **Names.** `get_class_name` and `get_module_name` derive a class name and a module
  (Java package) name from a source path.
- **Modules.** `find_modules` collects the modules of the dependency packages and
  groups the package's own `.java` files into modules.
- **Dependencies.** `find_dependencies` scans every source file for
  `import <module>.<Class>;` and records which module imports which.
- **Main class.** `find_main_class` finds the first source file that declares
  `static void main(`.
- **Compile tasks.** `generate_javac_tasks` registers one `javac` task per module.
  Each task reads the module's sources and the class directories of the modules
  it imports, and it writes its own class directory.
- **Archive task.** `generate_jar_tasks` registers one `jar` task. It reads every
  class directory and writes the archive.

The files:

- `wrappers.dfy` holds `Option`, `Result` and the two fatal errors. Where the
  source panics (`expect("Should be some")`) the model returns
  `Err(SourceOutsideRoot)`. Where it exits on a missing main class the model
  returns `Err(MissingMainClass)`.
- `strings.dfy` holds the Rust string operations the backend relies on: `split`,
  `join`, `replace`, `trim_end_matches`, `rsplit_once` and `ends_with`.
- `bob.dfy` holds the package record and the file system. The file system is a
  map from a path to its contents, or to `None` when reading fails.
- `executor.dfy` holds the executor as a class whose `tasks` sequence
  `add_task_cmd` appends to.
- `java_names.dfy`, `java_patterns.dfy`, `java_modules.dfy`,
  `java_dependencies.dfy`, `java_main_class.dfy`, `java_javac_tasks.dfy` and
  `java_jar_tasks.dfy` follow the functions of `java.rs`. The `Module` struct
  (java.rs:163-167) is the datatype `JavaModules.Module`: a name and its source
  files in the order they were met. Every function about modules works on it.

Each loop of the source becomes a method with loop invariants. The method is
proved equal to a recursive specification function, and the properties are
proved about those functions:
- `FindModules` and `AddSourceFiles` against `Modules` and `Group`;
- `FindDependencies`, `ScanModule` and `ScanFile` against `Dependencies`;
- `FindMainClass` against `MainClass`;
- `BuildInputs` and `GenerateJavacTasks` against `AppendMissing` and `JavacTasks`;
- `GenerateJarTasks` against `JarTask`.

`generate_javac_tasks` emits one task for every module `find_modules` returns,
and those include the modules of the dependency packages, so a package compiles
its dependencies' modules again. `JavaCompileTasks.DependencyModulesRecompiled`
states this.

## Model

| member | source | states |
|---|---|---|
| Strings.Split | bin/bob/src/tasks/java.rs:148 | `split` always yields at least one piece |
| Strings.SplitJoin | bin/bob/src/tasks/java.rs:148 | joining the pieces of a split with the pattern gives back the original text |
| Strings.SplitPiecesAvoidPattern | bin/bob/src/tasks/java.rs:148 | no piece of a split contains the pattern |
| Strings.SplitMoreThanOne | bin/bob/src/tasks/java.rs:148-150 | `nth(1)` exists exactly when the pattern occurs in the text |
| Strings.SecondPiece | bin/bob/src/tasks/java.rs:148-149 | `nth(1)` is the text after the first occurrence, up to the next occurrence if there is one |
| Strings.JoinSplit | bin/bob/src/tasks/java.rs:45 | what is joined with a one-character separator that occurs in no element splits back into the same elements |
| Strings.EndsWith | bin/bob/src/tasks/java.rs:20 | the definition of `ends_with`: the text's last characters are the suffix; `TrimEnd` states how trimming relates to it |
| Strings.Join | bin/bob/src/tasks/java.rs:45 | the definition of `join` (also at line 71): the elements with the separator between each two; `SplitJoin` and `JoinSplit` tie it to `Split` |
| Strings.TrimEnd | bin/bob/src/tasks/java.rs:152 | `trim_end_matches` removes whole copies of the suffix from the end, as many as there are: the input is the result followed by some number of copies, and the result no longer ends in the suffix |
| Strings.Replace | bin/bob/src/tasks/java.rs:153 | `replace` keeps the length and maps each listed character to the target character, leaving all other characters as they are |
| Strings.RSplitOnce | bin/bob/src/tasks/java.rs:158-159 | `rsplit_once` fails exactly when the character is absent; otherwise it cuts at the last occurrence |
| JavaNames.ClassName | bin/bob/src/tasks/java.rs:146-154 | the definition of `get_class_name`, with `None` where it panics; `ClassNameDefined`, `ClassNameUnderSrc` and `ClassNameUnderSrcGen` state its properties |
| JavaNames.ModuleName | bin/bob/src/tasks/java.rs:156-161 | the definition of `get_module_name`; `ModuleNameIsPackagePrefix` and `ModuleNameHasNoSeparators` state its properties |
| JavaNames.RootSegment | bin/bob/src/tasks/java.rs:147-151 | takes the segment after `src/` when there is one; otherwise the segment after `src-gen/`; otherwise nothing |
| JavaNames.ClassNameDefined | bin/bob/src/tasks/java.rs:146-154 | a class name exists exactly when the path holds `src/` or `src-gen/`, and it contains neither `/` nor `\` |
| JavaNames.ClassNameUnderSrc | bin/bob/src/tasks/java.rs:148-153 | under `src/`: the segment after the first `src/`, with trailing `.java` removed and separators turned into dots |
| JavaNames.ClassNameUnderSrcGen | bin/bob/src/tasks/java.rs:150-153 | `src-gen/` is used only when the path has no `src/` |
| JavaNames.ModuleNameIsPackagePrefix | bin/bob/src/tasks/java.rs:156-161 | a module name exists exactly when a class name does; it is the class name's prefix before its last dot, or empty when there is no dot |
| JavaNames.ModuleNameHasNoSeparators | bin/bob/src/tasks/java.rs:156-161 | a module name contains no path separator |
| JavaModules.IsJavaFile | bin/bob/src/tasks/java.rs:177 | the definition of the `.java` test; `GroupFailsIff`, `FilesOfModule` and `DetectJavaModules` use it |
| JavaModules.AddToModule | bin/bob/src/tasks/java.rs:179-185 | the definition of one file's step: join the first module of its name, or start a new module at the end; `GroupedJoin` and `GroupedNew` state what it keeps |
| JavaModules.DependencyModules | bin/bob/src/tasks/java.rs:171-175 | the reference definition of the loop over the dependency packages: their modules one after the other; `DependencyErrorPersists` and `DependencyModulesKept` state its properties |
| JavaModules.Group | bin/bob/src/tasks/java.rs:176-188 | the reference definition of the second loop of `find_modules`, file after file; `GroupIsGrouped` and `GroupFailsIff` state what it yields |
| JavaModules.Modules | bin/bob/src/tasks/java.rs:169-190 | the reference definition of `find_modules`: the dependency packages' modules, then `Group` over the package's sources; `ModulesGrouping` states what it yields |
| JavaModules.IndexOfName | bin/bob/src/tasks/java.rs:179 | `find` picks the first module with the name, or none |
| JavaModules.FindModuleIndex | bin/bob/src/tasks/java.rs:179 | the search loop finds that first index |
| JavaModules.FindModules | bin/bob/src/tasks/java.rs:169-190 | the recursive, looping `find_modules` computes `Modules` |
| JavaModules.AddSourceFiles | bin/bob/src/tasks/java.rs:176-188 | the loop over the package's sources computes `Group` |
| JavaModules.DependencyErrorPersists | bin/bob/src/tasks/java.rs:171-175 | a panic in one dependency package ends `find_modules` |
| JavaModules.GroupErrorPersists | bin/bob/src/tasks/java.rs:176-188 | a panic on one source file ends the grouping |
| JavaModules.GroupFailsIff | bin/bob/src/tasks/java.rs:176-188 | grouping fails exactly when some `.java` file lies under neither source root, and the error is `SourceOutsideRoot` |
| JavaModuleGrouping.FilesOfModule | bin/bob/src/tasks/java.rs:177-178 | holds exactly the `.java` files whose module name is the given name |
| JavaModuleGrouping.GroupedSkip | bin/bob/src/tasks/java.rs:177 | a file not ending in `.java` changes no module |
| JavaModuleGrouping.GroupedJoin | bin/bob/src/tasks/java.rs:179-180 | a file joins the first module of its name, and the grouping invariant is kept |
| JavaModuleGrouping.GroupedNew | bin/bob/src/tasks/java.rs:181-185 | a file whose name no module has yet starts a new module at the end, and the grouping invariant is kept |
| JavaModuleGrouping.AddedNames | bin/bob/src/tasks/java.rs:179-185 | the names of the modules the grouping adds: the new module names of the `.java` files, each once, in the order of the first file that has it |
| JavaModuleGrouping.GroupIsGrouped | bin/bob/src/tasks/java.rs:176-188 | the grouping keeps the starting modules in place with their names; the modules it adds have fresh names and come in the order `AddedNames` gives; the first module of each name holds its starting files followed by, in order, its module's `.java` files, and any later module of the same name keeps only its starting files; every `.java` file is placed |
| JavaModuleGrouping.GroupedUnique | bin/bob/src/tasks/java.rs:176-188 | those properties fix the result: at most one list of modules has them |
| JavaModuleGrouping.AddedModulesHoldFiles | bin/bob/src/tasks/java.rs:181-185 | every module the grouping adds holds at least one file, and only `.java` files of the package whose module name is its name |
| JavaModuleGrouping.ModulesGrouping | bin/bob/src/tasks/java.rs:169-190 | `find_modules` puts the dependency modules first and groups the package's own sources into the result as stated above |
| JavaModuleGrouping.DependencyModulesKept | bin/bob/src/tasks/java.rs:171-175 | the dependency packages' modules stay at the front, in order, with their names |
| JavaModuleGrouping.JavaFileInExactlyOneModule | bin/bob/src/tasks/java.rs:176-188 | a `.java` file that no starting module holds ends up in exactly one module: the first one named after its module name |
| JavaModuleGrouping.NoJavaSourcesNoModules | bin/bob/src/tasks/java.rs:176-188 | without `.java` sources the modules are unchanged |
| JavaPatterns.ImportsModule | bin/bob/src/tasks/java.rs:201-203 | the definition of a match of `import <module>.\w+;` anywhere in the text; `ImportStatementMatches` and `DotInModuleNameIsWildcard` state its properties |
| JavaPatterns.HasMainSignature | bin/bob/src/tasks/java.rs:217-221 | the definition of a match of `(public\s+)?static\s+void\s+main\s*\(` anywhere in the text; `PublicIsOptional` and `MainDeclarationMatches` state its properties |
| JavaPatterns.WordRunMatches | bin/bob/src/tasks/java.rs:201 | a run of word characters followed by `;` matches `\w+;` |
| JavaPatterns.ImportStatementMatches | bin/bob/src/tasks/java.rs:201-203 | a real `import M.C;` statement anywhere in a file matches the import pattern of module `M` |
| JavaPatterns.DotInModuleNameIsWildcard | bin/bob/src/tasks/java.rs:201 | the module name is not escaped, so `import aXb.C;` counts as an import of module `a.b` |
| JavaPatterns.SkipSpaces | bin/bob/src/tasks/java.rs:217 | `\s*` consumes the longest run of white space |
| JavaPatterns.PublicIsOptional | bin/bob/src/tasks/java.rs:217 | in a search anywhere in the text, the optional `public\s+` group changes nothing |
| JavaPatterns.MainDeclarationMatches | bin/bob/src/tasks/java.rs:217-221 | a `static void main(` declaration anywhere in a file matches the pattern |
| JavaPatterns.MainDeclarationAt | bin/bob/src/tasks/java.rs:217 | `static void main(` at an index matches the pattern at that index |
| JavaDependencies.Push | bin/bob/src/tasks/java.rs:204-207 | `entry().or_insert_with().push()` appends under the key only; the key appears only once something is pushed under it |
| JavaDependencies.Entry | bin/bob/src/tasks/java.rs:53 | the definition of `module_deps.get(&module.name)`, with a missing key read as the empty list; `Push` states how it changes, and `TaskInputs` uses it |
| JavaDependencies.FileImports | bin/bob/src/tasks/java.rs:196-203 | the definition of one file importing a module: it can be read and its contents match the module's import pattern; `TargetsExact`, `DependenciesExact` and `OneEntryPerMatchingFile` are stated with it |
| JavaDependencies.FileTargets | bin/bob/src/tasks/java.rs:197-209 | the reference definition of what one file's contents push: the other modules, in list order, whose import pattern it matches; `FileTargetsExact` and `FileTargetsCount` state its properties |
| JavaDependencies.Pushed | bin/bob/src/tasks/java.rs:196-210 | the definition of what one source file pushes: nothing when it cannot be read, otherwise `FileTargets` of its contents |
| JavaDependencies.Targets | bin/bob/src/tasks/java.rs:195-211 | the reference definition of what one module's files push, file after file; `TargetsExact` and `TargetsCount` state its properties |
| JavaDependencies.Dependencies | bin/bob/src/tasks/java.rs:192-214 | the reference definition of `find_dependencies`, module after module; `DependenciesExact` and `OneEntryPerMatchingFile` state what it records |
| JavaDependencies.FindDependencies | bin/bob/src/tasks/java.rs:192-214 | the three nested loops compute `Dependencies` |
| JavaDependencies.ScanModule | bin/bob/src/tasks/java.rs:195-211 | the loop over one module's files pushes what `Targets` says under that module's name |
| JavaDependencies.ScanFile | bin/bob/src/tasks/java.rs:197-209 | the loop over the other modules, for one file, pushes what `FileTargets` says |
| JavaDependencies.FileTargetsExact | bin/bob/src/tasks/java.rs:197-209 | one file pushes exactly the other modules whose import pattern it matches |
| JavaDependencies.TargetsExact | bin/bob/src/tasks/java.rs:195-211 | one module's files push exactly the other modules that some readable file of it imports |
| JavaDependencies.DependenciesExact | bin/bob/src/tasks/java.rs:192-214 | a module is recorded under a key exactly when some readable file of a module with that name matches the module's import pattern and the names differ; so no module depends on itself, and unreadable files add nothing |
| JavaDependencies.DependencyKeysHaveEntries | bin/bob/src/tasks/java.rs:204-207 | the map holds no key with an empty list |
| JavaDependencies.FileTargetsCount | bin/bob/src/tasks/java.rs:197-209 | for one file, another module is pushed once for each place it has in the module list when the file matches its import pattern, and never otherwise |
| JavaDependencies.TargetsCount | bin/bob/src/tasks/java.rs:195-211 | for one module, another module is pushed once for each readable file that matches its import pattern (times its places in the list); the module itself never |
| JavaDependencies.OneEntryPerMatchingFile | bin/bob/src/tasks/java.rs:192-214 | under a key, another module is recorded once for each readable file, of all modules with that name, that matches its import pattern (times its places in the list); a module of the key's own name never |
| JavaDependencies.TwoImportingFiles | bin/bob/src/tasks/java.rs:195-208 | an example: two files that import the same module record that dependency twice, when no file of the imported module imports the importer |
| JavaMainClass.MainClass | bin/bob/src/tasks/java.rs:216-227 | the reference definition of `find_main_class`: the class name of the first readable file that matches; `FirstMatchWins` and `NoMainClassIff` state its properties |
| JavaMainClass.FileHasMain | bin/bob/src/tasks/java.rs:220-221 | the definition of one file declaring an entry point: it can be read and its contents match the main pattern; `FirstMainIndexIs` and `NoMainClassIff` are stated with it |
| JavaMainClass.FirstMainIndex | bin/bob/src/tasks/java.rs:219-225 | the index of the first readable file that matches the main pattern |
| JavaMainClass.FindMainClass | bin/bob/src/tasks/java.rs:216-227 | the early-return loop computes `MainClass` |
| JavaMainClass.FirstMainIndexIs | bin/bob/src/tasks/java.rs:219-225 | the first index is the one with a match and no match before it |
| JavaMainClass.FirstMatchWins | bin/bob/src/tasks/java.rs:219-223 | the first file in source order that declares an entry point decides; if it lies outside the source roots, the result is `SourceOutsideRoot` |
| JavaMainClass.NoMainClassIff | bin/bob/src/tasks/java.rs:219-226 | `None` exactly when no readable source file matches |
| JavaMainClass.LaterFilesIrrelevant | bin/bob/src/tasks/java.rs:221-222 | the files after the first match do not affect the choice |
| JavaCompileTasks.DetectJava | bin/bob/src/tasks/java.rs:16-21 | the definition of `detect_java`: some source path ends in `.java`; `DetectJavaModules` states what it means for the modules |
| JavaCompileTasks.DetectJavaModules | bin/bob/src/tasks/java.rs:16-21 | without a `.java` source the modules are the dependencies' modules, unchanged; with one there is at least one module, and each `.java` file has a module named after it |
| JavaCompileTasks.ModuleDir | bin/bob/src/tasks/java.rs:55-59 | the definition of a module's class directory, the classes directory then the name with `.` turned into `/` (also at lines 74 and 125); `InModuleDirs` and `JavacTaskPerModule` use it |
| JavaCompileTasks.ModuleDirs | bin/bob/src/tasks/java.rs:123-126 | the definition of the class directories of a list of modules, in order; `InModuleDirs` states which paths it holds |
| JavaCompileTasks.JavacCommand | bin/bob/src/tasks/java.rs:66-72 | the definition of the `javac` command string; `JavacCommandWords` states its words |
| JavaCompileTasks.JavacTask | bin/bob/src/tasks/java.rs:52-75 | the definition of one module's task: its command, the inputs `AppendMissing` builds and the module's class directory as output; `TaskInputs` and `JavacTaskPerModule` state its properties |
| JavaCompileTasks.Fresh | bin/bob/src/tasks/java.rs:54-63 | the reference list of directories the loop adds: each directory not met before, in the order of its first occurrence |
| JavaCompileTasks.FreshSnoc | bin/bob/src/tasks/java.rs:60-62 | one more directory extends that list by itself exactly when it is new |
| JavaCompileTasks.AppendMissing | bin/bob/src/tasks/java.rs:52-64 | the sources followed by the new directories in order of first occurrence (`Fresh`); so it keeps the sources as a prefix, holds exactly the sources and the directories, and adds only directories not already present, each once |
| JavaCompileTasks.BuildInputs | bin/bob/src/tasks/java.rs:52-64 | the input-building loop computes `AppendMissing` |
| JavaCompileTasks.GenerateJavacTasks | bin/bob/src/tasks/java.rs:23-77 | appends exactly `JavacTasks` after the executor's earlier tasks; on a panic it appends nothing |
| JavaCompileTasks.JavacTasks | bin/bob/src/tasks/java.rs:23-77 | the reference definition of the tasks `generate_javac_tasks` registers; `JavacTaskPerModule`, `TaskInputs` and `JavacInputsAreImportedOutputs` state their properties |
| JavaCompileTasks.DebugFlag | bin/bob/src/tasks/java.rs:30-34 | the definition of the debug flag: `-g:none` in Release, `-g` otherwise; `JavacFlagWords` states it is the third flag word |
| JavaCompileTasks.JavacFlags | bin/bob/src/tasks/java.rs:28-39 | the definition of the flag string; `JavacFlagWords` states its words |
| JavaCompileTasks.Classpath | bin/bob/src/tasks/java.rs:41-49 | the definition of the classpath string; `ClasspathEntries` states its entries |
| JavaCompileTasks.JavacFlagWords | bin/bob/src/tasks/java.rs:28-39 | the flags are `-Xlint`, `-Werror`, `-g:none` in Release or `-g` otherwise, then the user's flags only when there are any |
| JavaCompileTasks.ClasspathEntries | bin/bob/src/tasks/java.rs:41-49 | the classpath splits on `:` into the classes directory followed by the manifest's entries |
| JavaCompileTasks.JavacCommandWords | bin/bob/src/tasks/java.rs:66-72 | the command is `javac`, then the flags, `-cp` and the classpath, `-d` and the classes directory, then the module's sources |
| JavaCompileTasks.JavacTaskPerModule | bin/bob/src/tasks/java.rs:51-76 | one task per module, in module order; each writes exactly its module's class directory and reads the module's sources first |
| JavaCompileTasks.DependencyModulesRecompiled | bin/bob/src/tasks/java.rs:51-76 | the first tasks compile the dependency packages' modules again, in order |
| JavaCompileTasks.InModuleDirs | bin/bob/src/tasks/java.rs:55-59 | a path is among the class directories exactly when it is the directory of one of the modules |
| JavaCompileTasks.TaskInputs | bin/bob/src/tasks/java.rs:52-64 | the task's inputs are the sources and the class directories of the modules recorded under its name |
| JavaCompileTasks.JavacInputsAreImportedOutputs | bin/bob/src/tasks/java.rs:51-64 | a compile task reads exactly its sources and the outputs of the tasks of the modules it imports |
| JavaCompileTasks.MutualImportsMakeTaskCycle | bin/bob/src/tasks/java.rs:51-75 | two modules that import each other give two tasks, each reading what the other writes |
| JavaJarTasks.JarFile | bin/bob/src/tasks/java.rs:115-120 | the definition of the archive path `out_dir/name-version.jar`; `JarReadsCompileOutputs` states the task writes only it |
| JavaJarTasks.JarCommand | bin/bob/src/tasks/java.rs:122 | the definition of the `jar cfe` command string; `JarCommandWords` states its words |
| JavaJarTasks.DetectJar | bin/bob/src/tasks/java.rs:93-95 | the definition of `detect_jar`: the manifest holds jar metadata |
| JavaJarTasks.HasExplicitMainClass | bin/bob/src/tasks/java.rs:101-107 | the definition of the manifest naming a main class: jar metadata with a main class; `MainClassResolution` states that it then wins |
| JavaJarTasks.ResolveMainClass | bin/bob/src/tasks/java.rs:101-113 | the reference definition of the main class choice; `MainClassResolution` states its properties |
| JavaJarTasks.JarTask | bin/bob/src/tasks/java.rs:97-129 | the reference definition of the archive task; `JarReadsCompileOutputs` and `JarCommandWords` state its properties |
| JavaJarTasks.GenerateJarTasks | bin/bob/src/tasks/java.rs:97-129 | appends exactly `JarTask`; when modules panic or no main class exists it appends nothing, and the `find_modules` panic comes first |
| JavaJarTasks.MainClassResolution | bin/bob/src/tasks/java.rs:101-113 | a main class in the manifest wins; otherwise a missing main class is an error exactly when no file declares one; otherwise the first file that declares one decides |
| JavaJarTasks.JarReadsCompileOutputs | bin/bob/src/tasks/java.rs:121-127 | the archive task reads the outputs of the compile tasks, one by one and in order, and writes only `out_dir/name-version.jar` |
| JavaJarTasks.JarCommandWords | bin/bob/src/tasks/java.rs:122 | the command is `jar cfe <jar> <main> -C <classes dir> .` |
| Bob.ClassesDir | bin/bob/src/tasks/java.rs:24 | the definition of `{target_dir}/{profile}/classes` (also at line 98); `ClasspathEntries` and `JavacCommandWords` state where it appears |
| Bob.ReadToString | bin/bob/src/tasks/java.rs:196 | `fs::read_to_string` (also at line 220) as a lookup: the contents, or `None` for a missing or unreadable file; `DependenciesExact` and `NoMainClassIff` state that unreadable files count for nothing |
| Exec.Executor.AddTaskCmd | bin/bob/src/tasks/java.rs:65-75 | registering a task appends it and changes nothing else |

## Left out

- `run_java_class` and `run_jar` (lines 79-90 and 131-143) are not modelled. They start a `java` process and exit with its status, and the model has no processes.
- The executor encloses more than `add_task_cmd`: staleness, scheduling and execution. `executor.rs` is not part of this model, so the executor is an append-only list of tasks.
- `Bobje::out_dir()` is not part of this model. Its value is a field, `outDir`, of the package record.
- The `Display` of `Profile` is not part of this model. Profile directory names are taken to be `debug` and `release`.
- `fs::read_to_string` becomes a lookup in a map from path to contents. Every kind of read error is one `None`.
- `bobje.dependencies.values()` (java.rs:171) visits the dependency packages in an order `java.rs` does not fix. The model takes them as a `seq<Bobje>` in one fixed order.
- Regular expressions are modelled only for the two patterns the backend builds. In the import pattern, every `.` of the unescaped module name matches any character but a newline. Any other regex metacharacter in a module name is treated as a literal character. The `expect("Failed to compile regex")` panic, which such a name could set off, is not modelled.
- `\w` and `\s` are taken as ASCII word characters and ASCII white space. Rust's `regex` crate gives them their Unicode meaning.
- The nested loops of `find_dependencies` become three methods, one per loop. `FindModules` keeps the source's loop over the dependency packages, with its recursive call per package. The specification function `DependencyModules` recurses over the packages.
- DetectJar: the backend's `detect_jar` is the definition itself (jar metadata is present), so no separate contract states it.
- JavaCompileTasks.JavacCommandWords: the word-by-word reading is stated only for a module with at least one source and only when no path and no classpath entry contains a space. With a space, the shell would split the command differently.
- JavaJarTasks.JarCommandWords: stated only for a jar path, main class and classes directory without spaces, for the same reason.
- JavaCompileTasks.ClasspathEntries: stated only when no entry contains `:`.
- JavaCompileTasks.JavacFlagWords: the user's flags become the words `Split` gives on single spaces. Runs of spaces in them would give empty words, which the shell would drop.
