/**
  The path helpers: `get_paths`, which keeps the `.nef` files of a folder
  listing, and `path.split('/')[-1]`, the file name shown while checking.
 */
module Paths {

  /** The extension `get_paths` keeps, compared in lower case. */
  const NefExtension: string := ".nef"

  /** `c.lower()` on ASCII letters; every other character is left as it is. */
  function LowerChar(c: char): char {
    if 'A' <= c <= 'Z' then (c as int + 32) as char else c
  }

  /** `s.lower()` */
  function Lower(s: string): (r: string)
    ensures |r| == |s|
    ensures forall i :: 0 <= i < |s| ==> r[i] == LowerChar(s[i])
  {
    if |s| == 0 then [] else [LowerChar(s[0])] + Lower(s[1..])
  }

  /** `s.endswith(suffix)` */
  predicate EndsWith(s: string, suffix: string) {
    |suffix| <= |s| && s[|s| - |suffix|..] == suffix
  }

  /** The filter of `get_paths`: `name.lower().endswith('.nef')`. */
  predicate IsNef(name: string) {
    EndsWith(Lower(name), NefExtension)
  }

  /**
    The filter read character by character: the name ends in a dot followed
    by `n`, `e` and `f`, each in either case.
   */
  lemma IsNefIff(name: string)
    ensures IsNef(name) <==>
              && |name| >= 4
              && name[|name| - 4] == '.'
              && name[|name| - 3] in {'n', 'N'}
              && name[|name| - 2] in {'e', 'E'}
              && name[|name| - 1] in {'f', 'F'}
  {
    var low := Lower(name);
    var n := |name|;
    if n >= 4 {
      var tail := low[n - 4..];
      assert tail == [low[n - 4], low[n - 3], low[n - 2], low[n - 1]];
    }
  }

  /** `f'{folder}/{file}'` */
  function JoinPath(folder: string, name: string): (p: string)
    ensures |p| == |folder| + 1 + |name|
    ensures p[..|folder|] == folder && p[|folder|] == '/'
  {
    folder + "/" + name
  }

  /** `[f'{folder}/{file}' for file in names if file.lower().endswith('.nef')]` */
  function GetPaths(folder: string, names: seq<string>): (paths: seq<string>)
    ensures |paths| <= |names|
  {
    if |names| == 0 then []
    else (if IsNef(names[0]) then [JoinPath(folder, names[0])] else []) + GetPaths(folder, names[1..])
  }

  /** Listing order is kept: the paths of a concatenation are the concatenated paths. */
  lemma {:induction false} GetPathsAppend(folder: string, names1: seq<string>, names2: seq<string>)
    ensures GetPaths(folder, names1 + names2) == GetPaths(folder, names1) + GetPaths(folder, names2)
  {
    if |names1| == 0 {
      assert names1 + names2 == names2;
    } else {
      var both := names1 + names2;
      var head := if IsNef(names1[0]) then [JoinPath(folder, names1[0])] else [];
      assert both[0] == names1[0];
      assert both[1..] == names1[1..] + names2;
      GetPathsAppend(folder, names1[1..], names2);
      assert GetPaths(folder, both) == head + GetPaths(folder, both[1..]);
      assert GetPaths(folder, names1) == head + GetPaths(folder, names1[1..]);
    }
  }

  /** The paths are exactly the folder joined with each `.nef` name of the listing. */
  lemma {:induction false} GetPathsMembership(folder: string, names: seq<string>, path: string)
    ensures path in GetPaths(folder, names) <==> exists n :: n in names && IsNef(n) && path == JoinPath(folder, n)
  {
    if |names| > 0 {
      var rest := names[1..];
      GetPathsMembership(folder, rest, path);
      assert forall n :: n in names <==> n == names[0] || n in rest;
    }
  }

  /** Different names give different paths under the same folder. */
  lemma JoinPathInjective(folder: string, n1: string, n2: string)
    requires JoinPath(folder, n1) == JoinPath(folder, n2)
    ensures n1 == n2
  {
    var k := |folder| + 1;
    assert n1 == JoinPath(folder, n1)[k..];
    assert n2 == JoinPath(folder, n2)[k..];
  }

  /** A listing without repeated names yields paths without repeats. */
  lemma {:induction false} GetPathsDistinct(folder: string, names: seq<string>)
    requires forall i, j :: 0 <= i < j < |names| ==> names[i] != names[j]
    ensures forall i, j :: 0 <= i < j < |GetPaths(folder, names)| ==> GetPaths(folder, names)[i] != GetPaths(folder, names)[j]
  {
    if |names| > 0 {
      var rest := names[1..];
      GetPathsDistinct(folder, rest);
      if IsNef(names[0]) {
        var paths := GetPaths(folder, rest);
        forall j | 0 <= j < |paths|
          ensures paths[j] != JoinPath(folder, names[0])
        {
          GetPathsMembership(folder, rest, paths[j]);
          var n :| n in rest && IsNef(n) && paths[j] == JoinPath(folder, n);
          if paths[j] == JoinPath(folder, names[0]) {
            JoinPathInjective(folder, n, names[0]);
            assert false;
          }
        }
      }
    }
  }

  /** `s.split(sep)`: the pieces between separators, always at least one. */
  function Split(s: string, sep: char): (parts: seq<string>)
    ensures |parts| >= 1
    ensures forall i :: 0 <= i < |parts| ==> sep !in parts[i]
    ensures Join(parts, sep) == s
  {
    if |s| == 0 then [""]
    else
      var rest := Split(s[1..], sep);
      if s[0] == sep then [""] + rest
      else
        var parts := [[s[0]] + rest[0]] + rest[1..];
        assert parts[1..] == rest[1..];
        parts
  }

  /** `sep.join(parts)` */
  function Join(parts: seq<string>, sep: char): string
    requires |parts| >= 1
  {
    if |parts| == 1 then parts[0] else parts[0] + [sep] + Join(parts[1..], sep)
  }

  /** Splitting a join of separator-free pieces gives the pieces back. */
  lemma {:induction false} SplitJoin(parts: seq<string>, sep: char)
    requires |parts| >= 1
    requires forall i :: 0 <= i < |parts| ==> sep !in parts[i]
    ensures Split(Join(parts, sep), sep) == parts
  {
    if |parts| == 1 {
      SplitNoSeparator(parts[0], sep);
    } else {
      SplitJoin(parts[1..], sep);
      SplitPrefix(parts[0], Join(parts[1..], sep), sep);
      assert Join(parts, sep) == parts[0] + ([sep] + Join(parts[1..], sep));
    }
  }

  /** A string without the separator splits into itself alone. */
  lemma {:induction false} SplitNoSeparator(s: string, sep: char)
    requires sep !in s
    ensures Split(s, sep) == [s]
  {
    if |s| > 0 {
      SplitNoSeparator(s[1..], sep);
      assert [s[0]] + s[1..] == s;
    }
  }

  /** A separator-free prefix followed by a separator becomes the first piece. */
  lemma {:induction false} SplitPrefix(head: string, tail: string, sep: char)
    requires sep !in head
    ensures Split(head + [sep] + tail, sep) == [head] + Split(tail, sep)
  {
    if |head| == 0 {
      assert head + [sep] + tail == [sep] + tail;
      assert ([sep] + tail)[1..] == tail;
    } else {
      var s := head + [sep] + tail;
      assert s[1..] == head[1..] + [sep] + tail;
      SplitPrefix(head[1..], tail, sep);
      assert [head[0]] + head[1..] == head;
    }
  }

  /** The last piece of a join is a suffix of it, preceded by a separator when there are several pieces. */
  lemma {:induction false} JoinLast(parts: seq<string>, sep: char)
    requires |parts| >= 1
    ensures var s := Join(parts, sep); var b := parts[|parts| - 1];
      |b| <= |s| && s[|s| - |b|..] == b && (|parts| > 1 ==> |b| < |s| && s[|s| - |b| - 1] == sep)
  {
    if |parts| > 1 {
      JoinLast(parts[1..], sep);
      var s := Join(parts, sep);
      var t := Join(parts[1..], sep);
      var b := parts[|parts| - 1];
      assert parts[1..][|parts[1..]| - 1] == b;
      assert s == parts[0] + [sep] + t;
      assert s[|s| - |t|..] == t;
      if |parts| > 2 {
        assert s[|s| - |b| - 1] == t[|t| - |b| - 1];
      } else {
        assert t == b;
      }
    }
  }

  /**
    `path.split('/')[-1]`: the file name. It holds no `/`, ends the path, and
    is either the whole path or directly preceded by a `/`.
   */
  function Basename(path: string): (name: string)
    ensures '/' !in name
    ensures |name| <= |path| && path[|path| - |name|..] == name
    ensures |name| < |path| ==> path[|path| - |name| - 1] == '/'
  {
    var parts := Split(path, '/');
    JoinLast(parts, '/');
    parts[|parts| - 1]
  }

  /** A path without `/` is its own file name. */
  lemma BasenameOfPlainName(path: string)
    requires '/' !in path
    ensures Basename(path) == path
  {
    SplitNoSeparator(path, '/');
  }

  /** The file name printed for a path built by `get_paths` is the listed name. */
  lemma BasenameOfJoinPath(folder: string, name: string)
    requires '/' !in name
    ensures Basename(JoinPath(folder, name)) == name
  {
    var path := JoinPath(folder, name);
    var b := Basename(path);
    assert path[|path| - |name|..] == name;
    assert path[|path| - |name| - 1] == '/';
  }
}
