/** The package record ("bobje") the Java backend reads, and the file system it scans. */
module Bob {
  import opened Wrappers

  datatype Profile = Debug | Release

  /** The directory name of a profile (the `Display` of `Profile`, which is not
      part of this model, is taken to be the lower-case variant name). */
  function ProfileName(p: Profile): string {
    match p
    case Debug => "debug"
    case Release => "release"
  }

  /** `[package.metadata.jar]` of the manifest. */
  datatype JarMetadata = JarMetadata(mainClass: Option<string>)

  /** One package: the manifest fields the backend reads, its resolved source
      files, and its dependency packages in the order the dependency map yields them. */
  datatype Bobje = Bobje(
    name: string,
    version: string,
    profile: Profile,
    targetDir: string,
    outDir: string,
    sourceFiles: seq<string>,
    dependencies: seq<Bobje>,
    javacFlags: string,
    classpath: seq<string>,
    jar: Option<JarMetadata>)

  /** `{target_dir}/{profile}/classes`, where `javac` puts the class files. */
  function ClassesDir(b: Bobje): string {
    b.targetDir + "/" + ProfileName(b.profile) + "/classes"
  }

  /** The file system as the backend sees it: a path maps to its contents, or to
      `None` when reading it fails; a path that is absent cannot be read either. */
  type FileSystem = map<string, Option<string>>

  /** `fs::read_to_string`, with the error turned into `None`. */
  function ReadToString(fs: FileSystem, path: string): Option<string> {
    if path in fs then fs[path] else None
  }
}
