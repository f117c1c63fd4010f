/** Choosing the class to run or to put in the jar manifest (`find_main_class`). */
module JavaMainClass {
  import opened Wrappers
  import opened Bob
  import opened JavaNames
  import opened JavaPatterns

  /** A file declares an entry point when it can be read and its text matches the main-signature pattern. */
  predicate FileHasMain(fs: FileSystem, path: string) {
    match ReadToString(fs, path)
    case None => false
    case Some(contents) => HasMainSignature(contents)
  }

  /** The index of the first file that declares an entry point, or `|files|`. */
  function FirstMainIndex(files: seq<string>, fs: FileSystem): (k: nat)
    ensures k <= |files|
    ensures k < |files| ==> FileHasMain(fs, files[k])
    ensures forall j :: 0 <= j < k ==> !FileHasMain(fs, files[j])
  {
    if |files| == 0 then 0
    else if FileHasMain(fs, files[0]) then 0
    else 1 + FirstMainIndex(files[1..], fs)
  }

  /** What `find_main_class` yields: the class name of the first source file that
      declares an entry point, `None` when no file does, and `Err` where
      `get_class_name` panics on that file. */
  function MainClass(b: Bobje, fs: FileSystem): Result<Option<string>> {
    var k := FirstMainIndex(b.sourceFiles, fs);
    if k == |b.sourceFiles| then Ok(None)
    else match ClassName(b.sourceFiles[k])
      case None => Err(SourceOutsideRoot)
      case Some(c) => Ok(Some(c))
  }

  method FindMainClass(b: Bobje, fs: FileSystem) returns (r: Result<Option<string>>)
    ensures r == MainClass(b, fs)
  {
    for i := 0 to |b.sourceFiles|
      invariant forall j :: 0 <= j < i ==> !FileHasMain(fs, b.sourceFiles[j])
    {
      var file := b.sourceFiles[i];
      var contents := ReadToString(fs, file);
      if contents.Some? && HasMainSignature(contents.value) {
        FirstMainIndexIs(b.sourceFiles, fs, i);
        var name := ClassName(file);
        if name.None? {
          return Err(SourceOutsideRoot);
        }
        return Ok(Some(name.value));
      }
    }
    FirstMainIndexIs(b.sourceFiles, fs, |b.sourceFiles|);
    return Ok(None);
  }

  /** `FirstMainIndex` is the index before which no file declares an entry point
      and at which one does, or the end. */
  lemma {:induction false} FirstMainIndexIs(files: seq<string>, fs: FileSystem, k: nat)
    requires k <= |files| && (k < |files| ==> FileHasMain(fs, files[k]))
    requires forall j :: 0 <= j < k ==> !FileHasMain(fs, files[j])
    ensures FirstMainIndex(files, fs) == k
    decreases |files|
  {
    if k > 0 {
      assert !FileHasMain(fs, files[0]);
      assert forall j :: 0 <= j < k - 1 ==> files[1..][j] == files[j + 1];
      FirstMainIndexIs(files[1..], fs, k - 1);
    }
  }

  /** The first file in source order that declares an entry point decides, whatever
      follows it: first match wins, unreadable files are passed over. */
  lemma FirstMatchWins(b: Bobje, fs: FileSystem, k: nat)
    requires k < |b.sourceFiles| && FileHasMain(fs, b.sourceFiles[k])
    requires forall j :: 0 <= j < k ==> !FileHasMain(fs, b.sourceFiles[j])
    ensures MainClass(b, fs) == match ClassName(b.sourceFiles[k])
      case None => Err(SourceOutsideRoot)
      case Some(c) => Ok(Some(c))
  {
    FirstMainIndexIs(b.sourceFiles, fs, k);
  }

  /** No entry point is found exactly when no readable source file declares one. */
  lemma NoMainClassIff(b: Bobje, fs: FileSystem)
    ensures MainClass(b, fs) == Ok(None) <==> forall j :: 0 <= j < |b.sourceFiles| ==> !FileHasMain(fs, b.sourceFiles[j])
  {
  }

  /** Files after the first entry point do not matter: replacing them leaves the choice unchanged. */
  lemma LaterFilesIrrelevant(b: Bobje, fs: FileSystem, k: nat, rest: seq<string>)
    requires k < |b.sourceFiles| && FileHasMain(fs, b.sourceFiles[k])
    requires forall j :: 0 <= j < k ==> !FileHasMain(fs, b.sourceFiles[j])
    ensures MainClass(b.(sourceFiles := b.sourceFiles[..k + 1] + rest), fs) == MainClass(b, fs)
  {
    var b2 := b.(sourceFiles := b.sourceFiles[..k + 1] + rest);
    assert b2.sourceFiles[k] == b.sourceFiles[k];
    assert forall j :: 0 <= j < k ==> b2.sourceFiles[j] == b.sourceFiles[j];
    FirstMatchWins(b, fs, k);
    FirstMatchWins(b2, fs, k);
  }
}
