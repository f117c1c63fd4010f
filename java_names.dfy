/** How the Java backend derives a class name and a module (Java package) name
    from a source path (`get_class_name`, `get_module_name`). */
module JavaNames {
  import opened Wrappers
  import opened Strings

  /** The text after the first occurrence of `marker` in `path`, up to the next one if any. */
  function SegmentAfter(path: string, marker: string): string
    requires |marker| > 0 && Contains(path, marker)
  {
    var rest := path[IndexOf(path, marker) + |marker|..];
    rest[..IndexOf(rest, marker)]
  }

  /** `split("src/").nth(1)`, falling back on `split("src-gen/").nth(1)`. */
  function RootSegment(path: string): (r: Option<string>)
    ensures Contains(path, "src/") ==> r == Some(SegmentAfter(path, "src/"))
    ensures !Contains(path, "src/") && Contains(path, "src-gen/") ==> r == Some(SegmentAfter(path, "src-gen/"))
    ensures !Contains(path, "src/") && !Contains(path, "src-gen/") ==> r == None
  {
    SplitMoreThanOne(path, "src/");
    SplitMoreThanOne(path, "src-gen/");
    var parts := Split(path, "src/");
    if |parts| > 1 then
      SecondPiece(path, "src/");
      Some(parts[1])
    else
      var generated := Split(path, "src-gen/");
      if |generated| > 1 then
        SecondPiece(path, "src-gen/");
        Some(generated[1])
      else None
  }

  /** `get_class_name`: `None` where the source panics ("Should be some"). */
  function ClassName(path: string): Option<string> {
    match RootSegment(path)
    case None => None
    case Some(segment) => Some(Replace(TrimEnd(segment, ".java"), {'/', '\\'}, '.'))
  }

  /** `get_module_name`: the class name without its last `.`-component, or the
      empty name for a class in no package. */
  function ModuleName(path: string): Option<string> {
    match ClassName(path)
    case None => None
    case Some(c) =>
      match RSplitOnce(c, '.')
      case None => Some("")
      case Some((prefix, _)) => Some(prefix)
  }

  /** The class name exists exactly when the path holds `src/` or `src-gen/`,
      and it holds no path separator. */
  lemma ClassNameDefined(path: string)
    ensures ClassName(path).Some? <==> Contains(path, "src/") || Contains(path, "src-gen/")
    ensures ClassName(path).Some? ==> '/' !in ClassName(path).value && '\\' !in ClassName(path).value
  {
    match RootSegment(path)
    case None =>
    case Some(segment) =>
      var name := Replace(TrimEnd(segment, ".java"), {'/', '\\'}, '.');
      assert forall i :: 0 <= i < |name| ==> name[i] != '/' && name[i] != '\\';
  }

  /** The module name exists exactly when the class name does; it is a prefix
      of the class name: all of it before the last `.`, or empty when there is no `.`. */
  lemma ModuleNameIsPackagePrefix(path: string)
    ensures ModuleName(path).Some? <==> ClassName(path).Some?
    ensures ModuleName(path).Some? ==>
      var c := ClassName(path).value;
      var m := ModuleName(path).value;
      && |m| <= |c| && c[..|m|] == m
      && ('.' !in c ==> m == "")
      && ('.' in c ==> |m| < |c| && c[|m|] == '.' && '.' !in c[|m| + 1..])
  {
    match ClassName(path)
    case None =>
    case Some(c) =>
      match RSplitOnce(c, '.')
      case None =>
      case Some((prefix, last)) =>
        assert c[..|prefix|] == prefix && c[|prefix| + 1..] == last;
  }

  /** A class name taken under `src/` is the dotted form of the segment after the
      first `src/`, with every trailing `.java` removed. */
  lemma ClassNameUnderSrc(path: string)
    requires Contains(path, "src/")
    ensures ClassName(path) == Some(Replace(TrimEnd(SegmentAfter(path, "src/"), ".java"), {'/', '\\'}, '.'))
  {
  }

  /** `src-gen/` counts only for a path without `src/`. */
  lemma ClassNameUnderSrcGen(path: string)
    requires !Contains(path, "src/") && Contains(path, "src-gen/")
    ensures ClassName(path) == Some(Replace(TrimEnd(SegmentAfter(path, "src-gen/"), ".java"), {'/', '\\'}, '.'))
  {
  }

  /** Module names carry no path separator either, since they are prefixes of class names. */
  lemma ModuleNameHasNoSeparators(path: string)
    requires ModuleName(path).Some?
    ensures '/' !in ModuleName(path).value && '\\' !in ModuleName(path).value
  {
    ModuleNameIsPackagePrefix(path);
    ClassNameDefined(path);
    var c := ClassName(path).value;
    var m := ModuleName(path).value;
    assert forall i :: 0 <= i < |m| ==> m[i] == c[i];
  }
}
