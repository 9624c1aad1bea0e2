/** Paths as strings: the prefix test and segment split of UtilsSAF.getParts
    and UtilsSAF.isInSAFRoot, and the parent/name split java.io.File performs
    for UtilsSAF.createFile and UtilsSAF.createPath. */
module PathParts {
  import opened Outcomes

  const Separator: char := '/'

  /** No segment contains the separator. */
  predicate NoSeparators(parts: seq<string>) {
    forall i :: 0 <= i < |parts| ==> Separator !in parts[i]
  }

  /** Java's `s.split("\\/", -1)`: every separator ends a segment, so leading,
      repeated and trailing separators give empty segments, and "" gives [""]. */
  function Split(s: string): (parts: seq<string>)
    ensures |parts| >= 1
    ensures NoSeparators(parts)
    decreases |s|
  {
    if s == [] then [""]
    else
      var rest := Split(s[1..]);
      if s[0] == Separator then [""] + rest
      else [[s[0]] + rest[0]] + rest[1..]
  }

  /** The segments written back with one separator between neighbours. */
  function Join(parts: seq<string>): string
    decreases |parts|
  {
    if parts == [] then ""
    else if |parts| == 1 then parts[0]
    else parts[0] + [Separator] + Join(parts[1..])
  }

  /** Joining the split segments gives back the string. */
  lemma {:induction false} JoinSplit(s: string)
    ensures Join(Split(s)) == s
    decreases |s|
  {
    if s != [] {
      var rest := Split(s[1..]);
      JoinSplit(s[1..]);
      if s[0] == Separator {
        assert Split(s) == [""] + rest;
        assert ([""] + rest)[1..] == rest;
        assert s == [s[0]] + s[1..];
      } else {
        var head := [s[0]] + rest[0];
        assert Split(s) == [head] + rest[1..];
        if |rest| == 1 {
          assert Join(Split(s)) == head;
          assert s == [s[0]] + s[1..];
        } else {
          assert ([head] + rest[1..])[1..] == rest[1..];
          assert Join(rest) == rest[0] + [Separator] + Join(rest[1..]);
          assert s == [s[0]] + s[1..];
        }
      }
    }
  }

  /** A string without separators is one segment. */
  lemma {:induction false} SplitSingle(s: string)
    requires Separator !in s
    ensures Split(s) == [s]
    decreases |s|
  {
    if s != [] {
      assert s[0] != Separator;
      assert Separator !in s[1..];
      SplitSingle(s[1..]);
      assert s == [s[0]] + s[1..];
    }
  }

  /** One separator between two strings splits them apart. */
  lemma {:induction false} SplitConcat(a: string, b: string)
    ensures Split(a + [Separator] + b) == Split(a) + Split(b)
    decreases |a|
  {
    var s := a + [Separator] + b;
    if a == [] {
      assert s[0] == Separator && s[1..] == b;
    } else {
      assert s[0] == a[0];
      assert s[1..] == a[1..] + [Separator] + b;
      SplitConcat(a[1..], b);
    }
  }

  /** Splitting undoes joining whenever no segment holds a separator. */
  lemma {:induction false} SplitJoin(parts: seq<string>)
    requires |parts| >= 1 && NoSeparators(parts)
    ensures Split(Join(parts)) == parts
    decreases |parts|
  {
    assert Separator !in parts[0];
    SplitSingle(parts[0]);
    if |parts| > 1 {
      SplitJoin(parts[1..]);
      SplitConcat(parts[0], Join(parts[1..]));
      assert parts == [parts[0]] + parts[1..];
    }
  }

  /** UtilsSAF.getParts: the segment names of `fullPath` below `rootPath`;
      None (Java null) when `fullPath` does not start with `rootPath`. The
      character right after the root is dropped without being looked at. */
  function GetParts(fullPath: string, rootPath: string): (parts: Option<seq<string>>)
    ensures parts.Some? <==> rootPath <= fullPath
    ensures parts == Some([]) <==> fullPath == rootPath
    ensures parts.Some? && |fullPath| > |rootPath| ==>
      |parts.value| >= 1 && NoSeparators(parts.value) &&
      Join(parts.value) == fullPath[|rootPath| + 1..]
  {
    if !(rootPath <= fullPath) then None
    else if |fullPath| > |rootPath| then
      var relative := fullPath[|rootPath| + 1..];
      JoinSplit(relative);
      Some(Split(relative))
    else Some([])
  }

  /** The character right after the root is skipped whatever it is, so the
      root plus any one character gives the single empty segment. */
  lemma SkippedCharacter(rootPath: string, c: char, rest: string)
    ensures GetParts(rootPath + [c] + rest, rootPath) == Some(Split(rest))
    ensures GetParts(rootPath + [c], rootPath) == Some([""])
  {
    var p := rootPath + [c] + rest;
    assert p[..|rootPath|] == rootPath;
    assert p[|rootPath| + 1..] == rest;
    assert (rootPath + [c])[..|rootPath|] == rootPath;
    assert (rootPath + [c])[|rootPath| + 1..] == [];
  }

  /** A trailing separator adds one empty segment after the others. */
  lemma SplitTrailing(x: string)
    ensures Split(x + [Separator]) == Split(x) + [""]
  {
    SplitConcat(x, []);
    assert x + [Separator] + [] == x + [Separator];
    assert Split([]) == [""];
  }

  /** A leading separator gives a leading empty segment. */
  lemma SplitLeading(b: string)
    ensures Split([Separator] + b) == [""] + Split(b)
  {
    assert ([Separator] + b)[1..] == b;
  }

  /** Two separators in a row are one separator followed by a string that starts with one. */
  lemma RegroupSeparators(a: string, b: string)
    ensures a + [Separator, Separator] + b == a + [Separator] + ([Separator] + b)
  {
  }

  /** Two separators in a row leave one empty segment between the two sides. */
  lemma SplitRepeated(a: string, b: string)
    ensures Split(a + [Separator, Separator] + b) == Split(a) + [""] + Split(b)
  {
    RegroupSeparators(a, b);
    SplitConcat(a, [Separator] + b);
    SplitLeading(b);
  }

  /** Below the root, `a/` gives the segments `a` and "". */
  lemma TrailingSeparator(rootPath: string, a: string)
    requires Separator !in a
    ensures GetParts(rootPath + [Separator] + (a + [Separator]), rootPath) == Some([a, ""])
  {
    SkippedCharacter(rootPath, Separator, a + [Separator]);
    SplitSingle(a);
    SplitTrailing(a);
    assert [a] + [""] == [a, ""];
  }

  /** Below the root, `a//b` gives the segments `a`, "" and `b`. */
  lemma RepeatedSeparator(rootPath: string, a: string, b: string)
    requires Separator !in a && Separator !in b
    ensures GetParts(rootPath + [Separator] + (a + [Separator, Separator] + b), rootPath)
      == Some([a, "", b])
  {
    SkippedCharacter(rootPath, Separator, a + [Separator, Separator] + b);
    SplitSingle(a);
    SplitSingle(b);
    SplitRepeated(a, b);
    assert [a] + [""] + [b] == [a, "", b];
  }

  /** Index of the last separator in `s`, or -1 (String.lastIndexOf). */
  function LastSeparator(s: string): (i: int)
    ensures -1 <= i < |s|
    ensures i >= 0 ==> s[i] == Separator
    ensures forall j :: i < j < |s| ==> s[j] != Separator
    decreases |s|
  {
    if s == [] then -1
    else if s[|s| - 1] == Separator then |s| - 1
    else LastSeparator(s[..|s| - 1])
  }

  /** java.io.File.getName on a Unix path: what follows the last separator. */
  function FileName(path: string): (name: string)
    ensures Separator !in name
    ensures |name| <= |path| && path[|path| - |name|..] == name
    ensures Separator in path ==> |name| < |path| && path[|path| - |name| - 1] == Separator
    ensures Separator !in path ==> name == path
  {
    path[LastSeparator(path) + 1..]
  }

  /** java.io.File.getParent on a Unix path: what precedes the last separator,
      "/" when that separator is the leading one, and None (Java null) when
      there is no separator or the path is "/" itself. */
  function FileParent(path: string): (parent: Option<string>)
    ensures parent.None? <==> Separator !in path || path == [Separator]
    ensures parent.Some? ==> parent.value != [] && |parent.value| < |path|
    ensures parent.Some? && parent.value != [Separator] ==>
      path == parent.value + [Separator] + FileName(path)
    ensures parent == Some([Separator]) ==>
      path == parent.value + FileName(path) || path == parent.value + [Separator] + FileName(path)
  {
    var i := LastSeparator(path);
    if i < 0 then None
    else if i == 0 then (if |path| > 1 then Some([Separator]) else None)
    else Some(path[..i])
  }

  /** No two separators in a row. */
  predicate NoRepeatedSeparator(s: string) {
    forall i :: 0 <= i < |s| - 1 ==> !(s[i] == Separator && s[i + 1] == Separator)
  }

  /** A path java.io.File keeps as it is: no repeated separator, and no
      trailing one unless the path is "/" itself. */
  predicate IsNormal(s: string) {
    NoRepeatedSeparator(s) && (|s| > 1 ==> s[|s| - 1] != Separator)
  }

  /** The characters of `s` other than separators, in order. */
  function Letters(s: string): string
    decreases |s|
  {
    if s == [] then []
    else if s[0] == Separator then Letters(s[1..])
    else [s[0]] + Letters(s[1..])
  }

  /** A trailing separator adds no character to Letters. */
  lemma {:induction false} LettersTrailing(a: string)
    ensures Letters(a + [Separator]) == Letters(a)
    decreases |a|
  {
    if a == [] {
      assert Letters([Separator]) == Letters([]);
    } else {
      assert (a + [Separator])[0] == a[0] && (a + [Separator])[1..] == a[1..] + [Separator];
      LettersTrailing(a[1..]);
    }
  }

  /** Every separator that directly follows another is removed. */
  function Collapse(s: string): string
    decreases |s|
  {
    if |s| <= 1 then s
    else if s[0] == Separator && s[1] == Separator then Collapse(s[1..])
    else [s[0]] + Collapse(s[1..])
  }

  /** Collapse keeps the first and the last character and never lengthens. */
  lemma {:induction false} CollapseEnds(s: string)
    ensures |Collapse(s)| <= |s|
    ensures s != [] ==> Collapse(s) != [] && Collapse(s)[0] == s[0] && Collapse(s)[|Collapse(s)| - 1] == s[|s| - 1]
    decreases |s|
  {
    if |s| > 1 {
      CollapseEnds(s[1..]);
    }
  }

  /** Collapse leaves no two separators in a row. */
  lemma {:induction false} CollapseNoRepeat(s: string)
    ensures NoRepeatedSeparator(Collapse(s))
    decreases |s|
  {
    if |s| > 1 {
      CollapseNoRepeat(s[1..]);
      CollapseEnds(s[1..]);
      if !(s[0] == Separator && s[1] == Separator) {
        var rest := Collapse(s[1..]);
        var c := [s[0]] + rest;
        forall i | 0 <= i < |c| - 1
          ensures !(c[i] == Separator && c[i + 1] == Separator)
        {
          if i > 0 {
            assert c[i] == rest[i - 1] && c[i + 1] == rest[i];
          }
        }
      }
    }
  }

  /** Collapse keeps every character other than a separator, in order. */
  lemma {:induction false} CollapseLetters(s: string)
    ensures Letters(Collapse(s)) == Letters(s)
    decreases |s|
  {
    if |s| > 1 {
      CollapseLetters(s[1..]);
      if !(s[0] == Separator && s[1] == Separator) {
        var c := [s[0]] + Collapse(s[1..]);
        assert c[0] == s[0] && c[1..] == Collapse(s[1..]);
      }
    }
  }

  /** Collapse changes nothing in a string without repeated separators. */
  lemma {:induction false} CollapseNormal(s: string)
    requires NoRepeatedSeparator(s)
    ensures Collapse(s) == s
    decreases |s|
  {
    if |s| > 1 {
      assert !(s[0] == Separator && s[1] == Separator);
      assert NoRepeatedSeparator(s[1..]) by {
        forall i | 0 <= i < |s[1..]| - 1
          ensures !(s[1..][i] == Separator && s[1..][i + 1] == Separator)
        {
          assert s[1..][i] == s[i + 1] && s[1..][i + 1] == s[i + 2];
        }
      }
      CollapseNormal(s[1..]);
      assert s == [s[0]] + s[1..];
    }
  }

  /** Collapse leaves no repeated separator, keeps every other character in
      order, keeps the first and the last character, and changes nothing in a
      string that has no repeated separator. */
  lemma CollapseSpec(s: string)
    ensures NoRepeatedSeparator(Collapse(s)) && Letters(Collapse(s)) == Letters(s)
    ensures |Collapse(s)| <= |s|
    ensures s != [] ==> Collapse(s) != [] && Collapse(s)[0] == s[0] && Collapse(s)[|Collapse(s)| - 1] == s[|s| - 1]
    ensures NoRepeatedSeparator(s) ==> Collapse(s) == s
  {
    CollapseEnds(s);
    CollapseNoRepeat(s);
    CollapseLetters(s);
    if NoRepeatedSeparator(s) {
      CollapseNormal(s);
    }
  }

  /** The normalisation java.io.File applies to a Unix path when it is built:
      repeated separators become one and a trailing separator is dropped,
      except that a path of separators only becomes "/". */
  function Normalize(s: string): string
  {
    var c := Collapse(s);
    if |c| > 1 && c[|c| - 1] == Separator then c[..|c| - 1] else c
  }

  /** Normalize gives a normal path with the same non-separator characters in
      the same order, keeps a leading separator, and leaves a normal path as
      it is (so normalising twice is normalising once). */
  lemma NormalizeSpec(s: string)
    ensures IsNormal(Normalize(s))
    ensures Letters(Normalize(s)) == Letters(s)
    ensures s != [] ==> Normalize(s) != [] && Normalize(s)[0] == s[0]
    ensures IsNormal(s) ==> Normalize(s) == s
  {
    CollapseSpec(s);
    var c := Collapse(s);
    if |c| > 1 && c[|c| - 1] == Separator {
      var n := c[..|c| - 1];
      assert c == n + [Separator];
      LettersTrailing(n);
    }
  }

  /** Collapse treats two separators in a row as one. */
  lemma {:induction false} CollapseDouble(x: string, y: string)
    ensures Collapse(x + [Separator, Separator] + y) == Collapse(x + [Separator] + y)
    decreases |x|
  {
    var s := x + [Separator, Separator] + y;
    var s' := x + [Separator] + y;
    if x == [] {
      assert s[1..] == s';
    } else {
      assert s[0] == s'[0] && s[1] == s'[1];
      assert s[1..] == x[1..] + [Separator, Separator] + y;
      assert s'[1..] == x[1..] + [Separator] + y;
      CollapseDouble(x[1..], y);
    }
  }

  /** Collapse keeps a single trailing separator after a last name. */
  lemma {:induction false} CollapseTrailing(p: string)
    requires p != [] && p[|p| - 1] != Separator
    ensures Collapse(p + [Separator]) == Collapse(p) + [Separator]
    decreases |p|
  {
    var s := p + [Separator];
    if |p| == 1 {
      assert s == [p[0], Separator];
      assert s[1..] == [Separator];
    } else {
      assert s[0] == p[0] && s[1] == p[1];
      assert s[1..] == p[1..] + [Separator];
      CollapseTrailing(p[1..]);
    }
  }

  /** The two rules java.io.File applies: a run of separators between two
      parts becomes one separator, and a trailing separator after a
      non-empty path is dropped. With NormalUnchanged they fix Normalize on
      every string. */
  lemma NormalizeRules(x: string, y: string)
    ensures Normalize(x + [Separator, Separator] + y) == Normalize(x + [Separator] + y)
    ensures x != [] ==> Normalize(x + [Separator]) == Normalize(x)
  {
    CollapseDouble(x, y);
    if x != [] {
      if x[|x| - 1] == Separator {
        var p := x[..|x| - 1];
        assert x == p + [Separator];
        CollapseDouble(p, []);
        assert p + [Separator, Separator] + [] == x + [Separator];
        assert p + [Separator] + [] == x;
      } else {
        CollapseTrailing(x);
        CollapseEnds(x);
      }
    }
  }

  /** java.io.File keeps a normal path as it is. */
  lemma NormalUnchanged(s: string)
    requires IsNormal(s)
    ensures Normalize(s) == s
  {
    CollapseNormal(s);
  }

  /** `path` names something strictly below a non-empty root and the character
      getParts skips is really a separator. */
  predicate StrictlyBelow(path: string, rootPath: string) {
    |rootPath| > 0 && rootPath <= path && |path| > |rootPath| && path[|rootPath|] == Separator
  }

  /** For a path strictly below the root, the parent's segments followed by the
      file name are the path's segments: createFile and createPath create the
      very node a later getDocumentFile looks up. */
  lemma ParentParts(path: string, rootPath: string)
    requires StrictlyBelow(path, rootPath)
    ensures FileParent(path).Some?
    ensures GetParts(FileParent(path).value, rootPath).Some?
    ensures GetParts(path, rootPath) ==
      Some(GetParts(FileParent(path).value, rootPath).value + [FileName(path)])
  {
    var i := LastSeparator(path);
    assert path[|rootPath|] == Separator;
    SplitSingle(FileName(path));
    if i == |rootPath| {
      assert path[..i] == rootPath;
      assert FileParent(path) == Some(rootPath);
      assert GetParts(rootPath, rootPath) == Some([]);
      assert path[|rootPath| + 1..] == FileName(path);
      assert GetParts(path, rootPath) == Some(Split(FileName(path)));
      assert [FileName(path)] == [] + [FileName(path)];
    } else {
      ParentPartsBelow(path, rootPath, i);
    }
  }

  /** ParentParts when the last separator lies past the one after the root. */
  lemma ParentPartsBelow(path: string, rootPath: string, i: nat)
    requires StrictlyBelow(path, rootPath) && i == LastSeparator(path) && i > |rootPath|
    ensures FileParent(path) == Some(path[..i])
    ensures GetParts(path[..i], rootPath) == Some(Split(path[|rootPath| + 1..i]))
    ensures GetParts(path, rootPath) == Some(Split(path[|rootPath| + 1..i]) + [FileName(path)])
  {
    var n := |rootPath|;
    CutAt(path, n, i);
    SplitSingle(FileName(path));
    SplitConcat(path[n + 1..i], path[i + 1..]);
  }

  /** Slicing facts about a cut at separator `i` beyond the root's end `n`. */
  lemma CutAt(path: string, n: nat, i: nat)
    requires n < i < |path| && path[i] == Separator
    ensures path[..i][..n] == path[..n]
    ensures path[..i][n + 1..] == path[n + 1..i]
    ensures path[n + 1..] == path[n + 1..i] + [Separator] + path[i + 1..]
  {
  }
}
