/** The Rust string operations the Java backend relies on (`ends_with`, `split`,
    `trim_end_matches`, `replace`, `rsplit_once`, `join`), over `seq<char>`. */
module Strings {
  import opened Wrappers

  /** `s` holds `p` starting at index `i`. */
  predicate HasAt(s: string, i: int, p: string) {
    0 <= i && i + |p| <= |s| && s[i..i + |p|] == p
  }

  predicate Contains(s: string, p: string) {
    exists i :: 0 <= i <= |s| && HasAt(s, i, p)
  }

  /** `str::ends_with`. */
  predicate EndsWith(s: string, suffix: string) {
    |suffix| <= |s| && s[|s| - |suffix|..] == suffix
  }

  /** The first index at or after `from` where `p` occurs, or `|s|` when there is none. */
  function IndexFrom(s: string, p: string, from: nat): (k: nat)
    requires |p| > 0 && from <= |s|
    ensures from <= k <= |s|
    ensures k < |s| ==> HasAt(s, k, p)
    ensures forall j :: from <= j < k ==> !HasAt(s, j, p)
    ensures k == |s| ==> !HasAt(s, k, p)
    decreases |s| - from
  {
    if from == |s| then |s|
    else if HasAt(s, from, p) then from
    else IndexFrom(s, p, from + 1)
  }

  function IndexOf(s: string, p: string): (k: nat)
    requires |p| > 0
    ensures k <= |s|
    ensures k < |s| <==> Contains(s, p)
    ensures k < |s| ==> HasAt(s, k, p)
    ensures forall j :: 0 <= j < k ==> !HasAt(s, j, p)
  {
    var k := IndexFrom(s, p, 0);
    assert Contains(s, p) ==> k < |s| by {
      if Contains(s, p) {
        var i :| 0 <= i <= |s| && HasAt(s, i, p);
        assert i < |s|;
      }
    }
    k
  }

  /** `str::split` with a non-empty pattern: the pieces between the leftmost
      non-overlapping occurrences of `p`. */
  function Split(s: string, p: string): (parts: seq<string>)
    requires |p| > 0
    ensures |parts| >= 1
    decreases |s|
  {
    var k := IndexOf(s, p);
    if k == |s| then [s] else [s[..k]] + Split(s[k + |p|..], p)
  }

  /** `[T]::join`. */
  function Join(xs: seq<string>, sep: string): string {
    if |xs| == 0 then ""
    else if |xs| == 1 then xs[0]
    else xs[0] + sep + Join(xs[1..], sep)
  }

  /** `str::replace` of every character in `olds` by the one character `target`. */
  function Replace(s: string, olds: set<char>, target: char): (r: string)
    ensures |r| == |s|
    ensures forall i :: 0 <= i < |s| ==> r[i] == if s[i] in olds then target else s[i]
  {
    if |s| == 0 then "" else [if s[0] in olds then target else s[0]] + Replace(s[1..], olds, target)
  }

  /** `str::trim_end_matches` with a non-empty string pattern: strips `suffix`
      from the end as often as it occurs there. */
  function TrimEnd(s: string, suffix: string): (r: string)
    requires |suffix| > 0
    ensures |r| <= |s| && r == s[..|r|]
    ensures !EndsWith(r, suffix)
    ensures exists n: nat :: s == r + Repeat(suffix, n)
    decreases |s|
  {
    if EndsWith(s, suffix) then
      var t := s[..|s| - |suffix|];
      var r := TrimEnd(t, suffix);
      assert exists n: nat :: s == r + Repeat(suffix, n) by {
        var n: nat :| t == r + Repeat(suffix, n);
        assert s == t + s[|s| - |suffix|..];
        RepeatOneMore(r, suffix, n);
      }
      r
    else
      assert s == s + Repeat(suffix, 0);
      s
  }

  /** `n` copies of `p`, one after the other. */
  function Repeat(p: string, n: nat): string {
    if n == 0 then [] else Repeat(p, n - 1) + p
  }

  lemma RepeatOneMore(r: string, p: string, n: nat)
    ensures r + Repeat(p, n) + p == r + Repeat(p, n + 1)
  {
  }

  /** `str::rsplit_once` on a character: the text before and after its last occurrence. */
  function RSplitOnce(s: string, c: char): (r: Option<(string, string)>)
    ensures r.None? <==> c !in s
    ensures r.Some? ==> s == r.value.0 + [c] + r.value.1 && c !in r.value.1
  {
    if |s| == 0 then None
    else if s[|s| - 1] == c then Some((s[..|s| - 1], ""))
    else match RSplitOnce(s[..|s| - 1], c)
      case None => None
      case Some((before, after)) =>
        assert s == s[..|s| - 1] + [s[|s| - 1]];
        Some((before, after + [s[|s| - 1]]))
  }

  // Properties of Split and Join

  /** One step of `Split`: the piece before the first occurrence, then the split of the rest. */
  lemma SplitStep(s: string, p: string)
    requires |p| > 0 && IndexOf(s, p) < |s|
    ensures var k := IndexOf(s, p);
      Split(s, p) == [s[..k]] + Split(s[k + |p|..], p) && s == s[..k] + p + s[k + |p|..]
  {
    Around(s, IndexOf(s, p), p);
  }

  /** An occurrence of `p` at `k` cuts `s` into the text before, `p` and the text after. */
  lemma Around(s: string, k: nat, p: string)
    requires HasAt(s, k, p)
    ensures s == s[..k] + p + s[k + |p|..]
  {
    assert s[k..k + |p|] == p;
  }

  /** `Join` of a non-empty tail puts one separator after the head. */
  lemma JoinCons(x: string, xs: seq<string>, sep: string)
    requires xs != []
    ensures Join([x] + xs, sep) == x + sep + Join(xs, sep)
  {
    assert ([x] + xs)[1..] == xs;
  }

  lemma {:induction false} SplitJoin(s: string, p: string)
    requires |p| > 0
    ensures Join(Split(s, p), p) == s
    decreases |s|
  {
    var k := IndexOf(s, p);
    if k < |s| {
      var rest := s[k + |p|..];
      SplitJoin(rest, p);
      SplitStep(s, p);
      JoinCons(s[..k], Split(rest, p), p);
    }
  }

  /** The text before the first occurrence of `p` does not contain `p`. */
  lemma PrefixAvoids(s: string, p: string)
    requires |p| > 0
    ensures !Contains(s[..IndexOf(s, p)], p)
  {
    var k := IndexOf(s, p);
    forall i | 0 <= i <= k ensures !HasAt(s[..k], i, p) {
      if i + |p| <= k {
        assert !HasAt(s, i, p);
        assert s[..k][i..i + |p|] == s[i..i + |p|];
      }
    }
  }

  lemma {:induction false} SplitPiecesAvoidPattern(s: string, p: string)
    requires |p| > 0
    ensures forall x :: x in Split(s, p) ==> !Contains(x, p)
    decreases |s|
  {
    var k := IndexOf(s, p);
    if k == |s| {
      assert !Contains(s, p);
    } else {
      SplitStep(s, p);
      PrefixAvoids(s, p);
      SplitPiecesAvoidPattern(s[k + |p|..], p);
    }
  }

  /** `s` splits into more than one piece exactly when the pattern occurs in it. */
  lemma SplitMoreThanOne(s: string, p: string)
    requires |p| > 0
    ensures |Split(s, p)| > 1 <==> Contains(s, p)
  {
  }

  /** The second piece of a split: the text after the first occurrence of `p`,
      up to the next occurrence if there is one. */
  lemma SecondPiece(s: string, p: string)
    requires |p| > 0 && Contains(s, p)
    ensures var rest := s[IndexOf(s, p) + |p|..];
      Split(s, p)[1] == rest[..IndexOf(rest, p)]
  {
    var k := IndexOf(s, p);
    SplitStep(s, p);
    SplitHead(s[k + |p|..], p);
  }

  /** The first piece of a split: the text before the first occurrence, or all of `s`. */
  lemma SplitHead(s: string, p: string)
    requires |p| > 0
    ensures Split(s, p)[0] == s[..IndexOf(s, p)]
  {
    if IndexOf(s, p) < |s| {
      SplitStep(s, p);
    } else {
      assert s[..|s|] == s;
    }
  }

  /** A one-character separator that does not occur in `head` is first found right after it. */
  lemma SplitAfterHead(head: string, sep: string, rest: string)
    requires |sep| == 1 && !Contains(head, sep)
    ensures Split(head + sep + rest, sep) == [head] + Split(rest, sep)
  {
    var s := head + sep + rest;
    assert HasAt(s, |head|, sep) by { assert s[|head|..|head| + 1] == sep; }
    forall j | 0 <= j < |head| ensures !HasAt(s, j, sep) {
      if HasAt(s, j, sep) {
        assert s[j..j + 1] == head[j..j + 1];
        assert HasAt(head, j, sep);
      }
    }
    assert IndexOf(s, sep) == |head|;
    assert s[..|head|] == head;
    assert s[|head| + 1..] == rest;
  }

  /** Joining with a one-character separator that occurs in no element can be
      undone by splitting on it. */
  lemma {:induction false} JoinSplit(xs: seq<string>, sep: string)
    requires |sep| == 1 && |xs| > 0
    requires forall x :: x in xs ==> !Contains(x, sep)
    ensures Split(Join(xs, sep), sep) == xs
    decreases |xs|
  {
    if |xs| == 1 {
      assert Join(xs, sep) == xs[0];
    } else {
      JoinSplit(xs[1..], sep);
      assert xs[0] in xs;
      SplitAfterHead(xs[0], sep, Join(xs[1..], sep));
      assert xs == [xs[0]] + xs[1..];
    }
  }

  /** A string without character `c` does not contain the one-character pattern `[c]`. */
  lemma CharNotContained(s: string, c: char)
    requires c !in s
    ensures !Contains(s, [c])
  {
    forall i | 0 <= i < |s| ensures !HasAt(s, i, [c]) {
      assert s[i..i + 1] == [s[i]];
    }
  }

  /** Splitting on a one-character separator: the pieces of `a`, then those of `b`. */
  lemma {:induction false} SplitConcat(a: string, sep: string, b: string)
    requires |sep| == 1
    ensures Split(a + sep + b, sep) == Split(a, sep) + Split(b, sep)
    decreases |a|
  {
    var k := IndexOf(a, sep);
    if k == |a| {
      SplitAfterHead(a, sep, b);
    } else {
      var a0, a1 := a[..k], a[k + 1..];
      Around(a, k, sep);
      PrefixAvoids(a, sep);
      SplitConcat(a1, sep, b);
      SplitConcatStep(a0, a1, sep, b);
    }
  }

  /** The inductive step of `SplitConcat`, for a first piece `a0` free of the separator. */
  lemma SplitConcatStep(a0: string, a1: string, sep: string, b: string)
    requires |sep| == 1 && !Contains(a0, sep)
    requires Split(a1 + sep + b, sep) == Split(a1, sep) + Split(b, sep)
    ensures Split((a0 + sep + a1) + sep + b, sep) == Split(a0 + sep + a1, sep) + Split(b, sep)
  {
    Regroup(a0, sep, a1, b);
    SplitAfterHead(a0, sep, a1);
    SplitAfterHead(a0, sep, a1 + sep + b);
    PiecesRegroup([a0], Split(a1, sep), Split(b, sep));
  }

  lemma PiecesRegroup(x: seq<string>, y: seq<string>, z: seq<string>)
    ensures x + (y + z) == (x + y) + z
  {
  }

  lemma PiecesRegroup4(w: seq<string>, x: seq<string>, y: seq<string>, z: seq<string>)
    ensures w + (x + (y + z)) == w + x + y + z
  {
  }

  lemma Regroup(a0: string, sep: string, a1: string, b: string)
    ensures (a0 + sep + a1) + sep + b == a0 + sep + (a1 + sep + b)
  {
  }

  /** A word without the separator splits into itself. */
  lemma SplitWord(w: string, sep: string)
    requires |sep| == 1 && !Contains(w, sep)
    ensures Split(w, sep) == [w]
  {
  }

  /** No element of `xs` contains the one-character pattern `[c]` when none has `c`. */
  lemma NoneContains(xs: seq<string>, c: char)
    requires forall e :: e in xs ==> c !in e
    ensures forall e :: e in xs ==> !Contains(e, [c])
  {
    forall e | e in xs ensures !Contains(e, [c]) {
      CharNotContained(e, c);
    }
  }
}
