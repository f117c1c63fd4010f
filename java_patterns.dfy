/** The two regular expressions of the Java backend, as matchers over the text of a
    source file. `is_match` searches anywhere in the text, so each pattern is a
    predicate "matches at some index". `\w` is taken as the ASCII word characters
    and `\s` as the ASCII white space. */
module JavaPatterns {
  import opened Strings

  predicate IsWordChar(c: char) {
    ('a' <= c <= 'z') || ('A' <= c <= 'Z') || ('0' <= c <= '9') || c == '_'
  }

  predicate IsSpace(c: char) {
    c == ' ' || c == '\t' || c == '\n' || c == '\r' || c == '\U{B}' || c == '\U{C}'
  }

  // The import pattern `import {name}.\w+;`

  /** One character of a regex made of literals and `.`: a `.` matches anything but a newline. */
  predicate PatternCharMatches(pc: char, c: char) {
    if pc == '.' then c != '\n' else c == pc
  }

  predicate PatternAt(s: string, i: nat, pattern: string) {
    i + |pattern| <= |s| && forall t :: 0 <= t < |pattern| ==> PatternCharMatches(pattern[t], s[i + t])
  }

  /** `\w+;` at index `k`: a non-empty run of word characters, then a semicolon.
      Since `;` is no word character, the run must be the longest one from `k`. */
  predicate WordsThenSemicolon(s: string, k: nat)
    decreases |s| - k
  {
    k < |s| && IsWordChar(s[k]) && ((k + 1 < |s| && s[k + 1] == ';') || WordsThenSemicolon(s, k + 1))
  }

  /** The part of the import regex before `\w+;`. The module name is put in
      unescaped, so each `.` of it, like the `.` after it, matches any character. */
  function ImportPrefix(moduleName: string): string {
    "import " + moduleName + "."
  }

  predicate ImportMatchAt(s: string, i: nat, moduleName: string) {
    PatternAt(s, i, ImportPrefix(moduleName)) && WordsThenSemicolon(s, i + |ImportPrefix(moduleName)|)
  }

  /** `Regex::new(&format!(r"import {}.\w+;", moduleName)).is_match(s)`. */
  predicate ImportsModule(s: string, moduleName: string) {
    exists i: nat :: i <= |s| && ImportMatchAt(s, i, moduleName)
  }

  lemma {:induction false} WordRunMatches(s: string, k: nat, word: string)
    requires |word| > 0 && forall t :: 0 <= t < |word| ==> IsWordChar(word[t])
    requires HasAt(s, k, word + ";")
    ensures WordsThenSemicolon(s, k)
    decreases |word|
  {
    assert s[k..k + |word| + 1] == word + ";";
    assert s[k] == word[0];
    if |word| == 1 {
      assert s[k + 1] == ';';
    } else {
      assert s[k + 1..k + 1 + |word[1..]| + 1] == word[1..] + ";";
      WordRunMatches(s, k + 1, word[1..]);
    }
  }

  /** A real import statement of a class of `moduleName` always matches, wherever it stands. */
  lemma ImportStatementMatches(before: string, moduleName: string, className: string, after: string)
    requires |className| > 0 && forall t :: 0 <= t < |className| ==> IsWordChar(className[t])
    ensures ImportsModule(before + "import " + moduleName + "." + className + ";" + after, moduleName)
  {
    var s := before + "import " + moduleName + "." + className + ";" + after;
    var p := ImportPrefix(moduleName);
    var i := |before|;
    assert s == before + p + (className + ";") + after;
    assert s[i..i + |p|] == p;
    forall t | 0 <= t < |p| ensures PatternCharMatches(p[t], s[i + t]) {
      assert s[i + t] == p[t];
    }
    assert s[i + |p|..i + |p| + |className| + 1] == className + ";";
    WordRunMatches(s, i + |p|, className);
    assert ImportMatchAt(s, i, moduleName);
  }

  /** Because the name is unescaped, `import aXb.C;` counts as an import of module `a.b`. */
  lemma DotInModuleNameIsWildcard()
    ensures ImportsModule("import aXb.C;", "a.b")
  {
    var s := "import aXb.C;";
    assert ImportPrefix("a.b") == "import a.b.";
    assert PatternAt(s, 0, "import a.b.");
    assert WordsThenSemicolon(s, 11);
    assert ImportMatchAt(s, 0, "a.b");
  }

  // The entry-point pattern `(public\s+)?static\s+void\s+main\s*\(`

  /** The end of the run of white space that starts at `k`. */
  function SkipSpaces(s: string, k: nat): (r: nat)
    requires k <= |s|
    ensures k <= r <= |s|
    ensures forall t :: k <= t < r ==> IsSpace(s[t])
    ensures r < |s| ==> !IsSpace(s[r])
    decreases |s| - k
  {
    if k < |s| && IsSpace(s[k]) then SkipSpaces(s, k + 1) else k
  }

  /** `static\s+void\s+main\s*\(` at index `i`. Each white-space run is followed by a
      character that is not white space, so it must be the longest run there. */
  predicate MainCoreAt(s: string, i: nat) {
    HasAt(s, i, "static") &&
    var a := SkipSpaces(s, i + 6);
    a > i + 6 && HasAt(s, a, "void") &&
    var b := SkipSpaces(s, a + 4);
    b > a + 4 && HasAt(s, b, "main") &&
    var c := SkipSpaces(s, b + 4);
    HasAt(s, c, "(")
  }

  predicate MainSignatureAt(s: string, i: nat) {
    || MainCoreAt(s, i)
    || (HasAt(s, i, "public") &&
        var a := SkipSpaces(s, i + 6);
        a > i + 6 && MainCoreAt(s, a))
  }

  /** `Regex::new(r"(public\s+)?static\s+void\s+main\s*\(").is_match(s)`. */
  predicate HasMainSignature(s: string) {
    exists i: nat :: i <= |s| && MainSignatureAt(s, i)
  }

  /** For a search anywhere in the text, the optional `public` group changes nothing. */
  lemma PublicIsOptional(s: string)
    ensures HasMainSignature(s) <==> exists i: nat :: i <= |s| && MainCoreAt(s, i)
  {
    if HasMainSignature(s) {
      var i: nat :| i <= |s| && MainSignatureAt(s, i);
      if !MainCoreAt(s, i) {
        var a := SkipSpaces(s, i + 6);
        assert a <= |s| && MainCoreAt(s, a);
      }
    }
    if exists i: nat :: i <= |s| && MainCoreAt(s, i) {
      var i: nat :| i <= |s| && MainCoreAt(s, i);
      assert MainSignatureAt(s, i);
    }
  }

  /** A `static void main(` declaration is found wherever it stands. */
  lemma MainDeclarationMatches(before: string, after: string)
    ensures HasMainSignature(before + "static void main(" + after)
  {
    var s := before + "static void main(" + after;
    HasAtJoin(before, "static void main(", after);
    MainDeclarationAt(s, |before|);
  }

  /** The text between `before` and `after` stands at index `|before|`. */
  lemma HasAtJoin(before: string, p: string, after: string)
    ensures HasAt(before + p + after, |before|, p)
  {
    assert (before + p + after)[|before|..|before| + |p|] == p;
  }

  /** A part of a pattern found at `i` is found at its offset from `i`. */
  lemma HasAtPart(s: string, i: nat, p: string, j: nat, q: string)
    requires HasAt(s, i, p) && j + |q| <= |p| && p[j..j + |q|] == q
    ensures HasAt(s, i + j, q)
  {
    forall t | 0 <= t < |q| ensures s[i + j + t] == q[t] {
      assert s[i..i + |p|][j + t] == p[j + t];
    }
    assert s[i + j..i + j + |q|] == q;
  }

  /** `static void main(` at `i` matches the core of the entry-point pattern there. */
  lemma MainDeclarationAt(s: string, i: nat)
    requires HasAt(s, i, "static void main(")
    ensures MainSignatureAt(s, i)
  {
    var p := "static void main(";
    HasAtPart(s, i, p, 0, "static");
    HasAtPart(s, i, p, 6, " ");
    HasAtPart(s, i, p, 7, "void");
    HasAtPart(s, i, p, 11, " ");
    HasAtPart(s, i, p, 12, "main");
    HasAtPart(s, i, p, 16, "(");
    assert s[i + 6] == ' ' && s[i + 7] == 'v';
    assert s[i + 11] == ' ' && s[i + 12] == 'm';
    assert s[i + 16] == '(';
    assert SkipSpaces(s, i + 6) == i + 7;
    assert SkipSpaces(s, i + 11) == i + 12;
    assert SkipSpaces(s, i + 16) == i + 16;
    assert MainCoreAt(s, i);
  }
}
