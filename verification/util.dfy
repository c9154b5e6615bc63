/** The helpers of `src/util.rs` the engine depends on: the filesystem as a map
    from path to contents (the semantics of the test virtual filesystem) and
    joining an ordered set of strings (`MyJoin::join` on `BTreeSet<String>`). */
module Util {
  import opened Errors

  // ---------------------------------------------------------------------------
  // Filesystem
  // ---------------------------------------------------------------------------

  /** Every regular file the engine can see, by path, with its text. */
  type FileSystem = map<string, string>

  /** `read_file_to_string`: the stored text, or a NotFound error. */
  function ReadFileToString(fs: FileSystem, path: string): (r: Result<string>)
    ensures r.Ok? <==> path in fs
    ensures r.Ok? ==> r.value == fs[path]
    ensures r.Err? ==> r.error == NotFound(path)
  {
    if path in fs then Ok(fs[path]) else Err(NotFound(path))
  }

  /** `is_path_file`: the path names a regular file, which is exactly when
      reading it succeeds. */
  predicate IsPathFile(fs: FileSystem, path: string)
    ensures IsPathFile(fs, path) <==> ReadFileToString(fs, path).Ok?
    ensures IsPathFile(fs, path) ==> ReadFileToString(fs, path) == Ok(fs[path])
  {
    path in fs
  }

  /** `add_test_fs_paths`: each listed path becomes a file with empty contents. */
  function AddTestFsPaths(fs: FileSystem, paths: seq<string>): (r: FileSystem)
    ensures forall p :: IsPathFile(r, p) <==> IsPathFile(fs, p) || p in paths
    ensures forall p :: p in paths ==> p in r && r[p] == ""
    ensures forall p :: p in fs && p !in paths ==> p in r && r[p] == fs[p]
    decreases |paths|
  {
    if |paths| == 0 then fs
    else AddTestFsPaths(fs[paths[0] := ""], paths[1..])
  }

  /** `set_test_fs_path_content`: one path holds the given text, created if need be. */
  function SetTestFsPathContent(fs: FileSystem, path: string, contents: string): (r: FileSystem)
    ensures IsPathFile(r, path) && r[path] == contents
    ensures forall p :: p != path ==> (IsPathFile(r, p) <==> IsPathFile(fs, p))
    ensures forall p :: p != path && p in fs ==> p in r && r[p] == fs[p]
  {
    fs[path := contents]
  }

  /** Reading back a path just written yields what was written; every other
      path reads as before. */
  lemma ReadAfterSet(fs: FileSystem, path: string, contents: string, other: string)
    ensures ReadFileToString(SetTestFsPathContent(fs, path, contents), path) == Ok(contents)
    ensures other != path ==>
      ReadFileToString(SetTestFsPathContent(fs, path, contents), other) == ReadFileToString(fs, other)
  {
  }

  /** Reading a path just added yields empty text; every other path reads as before. */
  lemma ReadAfterAdd(fs: FileSystem, paths: seq<string>, p: string)
    ensures p in paths ==> ReadFileToString(AddTestFsPaths(fs, paths), p) == Ok("")
    ensures p !in paths ==> ReadFileToString(AddTestFsPaths(fs, paths), p) == ReadFileToString(fs, p)
  {
  }

  // ---------------------------------------------------------------------------
  // Ordered sets of strings
  // ---------------------------------------------------------------------------

  /** `Ord` on `String`: lexicographic, a proper prefix first. UTF-8 byte order
      and code point order agree, so comparing characters suffices. */
  predicate StrLess(a: string, b: string)
    decreases |a|
  {
    if |a| == 0 then |b| > 0
    else if |b| == 0 then false
    else if a[0] == b[0] then StrLess(a[1..], b[1..])
    else a[0] < b[0]
  }

  lemma {:induction false} StrLessIrreflexive(a: string)
    ensures !StrLess(a, a)
    decreases |a|
  {
    if |a| > 0 {
      StrLessIrreflexive(a[1..]);
    }
  }

  lemma {:induction false} StrLessAsymmetric(a: string, b: string)
    requires StrLess(a, b)
    ensures !StrLess(b, a)
    decreases |a|
  {
    if |a| > 0 && |b| > 0 && a[0] == b[0] {
      StrLessAsymmetric(a[1..], b[1..]);
    }
  }

  lemma {:induction false} StrLessTransitive(a: string, b: string, c: string)
    requires StrLess(a, b) && StrLess(b, c)
    ensures StrLess(a, c)
    decreases |a|
  {
    if |a| > 0 && a[0] == b[0] && b[0] == c[0] {
      StrLessTransitive(a[1..], b[1..], c[1..]);
    }
  }

  lemma {:induction false} StrLessTotal(a: string, b: string)
    requires a != b
    ensures StrLess(a, b) || StrLess(b, a)
    decreases |a|
  {
    if |a| > 0 && |b| > 0 && a[0] == b[0] {
      assert a == [a[0]] + a[1..] && b == [b[0]] + b[1..];
      StrLessTotal(a[1..], b[1..]);
    }
  }

  /** `m` comes before every other member of `s`. */
  predicate IsLeast(m: string, s: set<string>) {
    m in s && forall x :: x in s && x != m ==> StrLess(m, x)
  }

  lemma LeastExists(s: set<string>)
    requires s != {}
    ensures exists m :: IsLeast(m, s)
    decreases |s|
  {
    var x :| x in s;
    var rest := s - {x};
    if rest != {} {
      LeastExists(rest);
      var m :| IsLeast(m, rest);
      if StrLess(x, m) {
        forall y | y in s && y != x
          ensures StrLess(x, y)
        {
          if y != m {
            StrLessTransitive(x, m, y);
          }
        }
        assert IsLeast(x, s);
      } else {
        StrLessTotal(x, m);
        assert IsLeast(m, s);
      }
    } else {
      assert s == {x};
      assert IsLeast(x, s);
    }
  }

  lemma LeastUnique(s: set<string>)
    ensures forall m, n :: IsLeast(m, s) && IsLeast(n, s) ==> m == n
  {
    forall m, n | IsLeast(m, s) && IsLeast(n, s)
      ensures m == n
    {
      if m != n {
        StrLessAsymmetric(m, n);
      }
    }
  }

  /** The first element a `BTreeSet<String>` iterates over. */
  function Least(s: set<string>): (m: string)
    requires s != {}
    ensures IsLeast(m, s)
  {
    LeastExists(s);
    LeastUnique(s);
    var m :| IsLeast(m, s); m
  }

  /** Each element comes strictly before the next, hence no element repeats. */
  predicate StrictlyAscending(xs: seq<string>) {
    forall i, j :: 0 <= i < j < |xs| ==> StrLess(xs[i], xs[j])
  }

  /** `xs` lists exactly the members of `s` in ascending order. */
  ghost predicate AscendingEnumeration(xs: seq<string>, s: set<string>) {
    StrictlyAscending(xs) && (forall x :: x in xs <==> x in s)
  }

  /** The elements in the order `BTreeSet::iter` visits them. */
  function SortedElements(s: set<string>): (xs: seq<string>)
    ensures AscendingEnumeration(xs, s)
    ensures |xs| == |s|
    decreases s
  {
    if s == {} then []
    else
      var m := Least(s);
      [m] + SortedElements(s - {m})
  }

  /** There is only one ascending enumeration of a set. */
  lemma {:induction false} AscendingEnumerationUnique(xs: seq<string>, ys: seq<string>, s: set<string>)
    requires AscendingEnumeration(xs, s) && AscendingEnumeration(ys, s)
    ensures xs == ys
    decreases |xs|
  {
    assert |ys| > 0 ==> ys[0] in s;
    if |xs| == 0 {
      assert s == {};
    } else {
      assert ys != [] by {
        assert xs[0] in s;
      }
      forall x | x in s && x != xs[0]
        ensures StrLess(xs[0], x)
      {
        var i :| 0 <= i < |xs| && xs[i] == x;
      }
      forall y | y in s && y != ys[0]
        ensures StrLess(ys[0], y)
      {
        var i :| 0 <= i < |ys| && ys[i] == y;
      }
      LeastUnique(s);
      assert IsLeast(xs[0], s) && IsLeast(ys[0], s);
      var rest := s - {xs[0]};
      forall x
        ensures x in xs[1..] <==> x in rest
      {
        if x in xs[1..] {
          var i :| 1 <= i < |xs| && xs[i] == x;
          StrLessIrreflexive(xs[0]);
        }
        if x in rest {
          var i :| 0 <= i < |xs| && xs[i] == x;
        }
      }
      forall x
        ensures x in ys[1..] <==> x in rest
      {
        if x in ys[1..] {
          var i :| 1 <= i < |ys| && ys[i] == x;
          StrLessIrreflexive(ys[0]);
        }
        if x in rest {
          var i :| 0 <= i < |ys| && ys[i] == x;
        }
      }
      AscendingEnumerationUnique(xs[1..], ys[1..], rest);
      assert xs == [xs[0]] + xs[1..] && ys == [ys[0]] + ys[1..];
    }
  }

  /** `[&str]::join`: the items with `sep` between neighbours. */
  function Join(xs: seq<string>, sep: string): string
    decreases |xs|
  {
    if |xs| == 0 then ""
    else if |xs| == 1 then xs[0]
    else xs[0] + sep + Join(xs[1..], sep)
  }

  /** Joining one more item at the end adds the separator and the item. */
  lemma {:induction false} JoinSnoc(xs: seq<string>, y: string, sep: string)
    requires |xs| > 0
    ensures Join(xs + [y], sep) == Join(xs, sep) + sep + y
    decreases |xs|
  {
    if |xs| == 1 {
      assert xs + [y] == [xs[0], y];
      assert [xs[0], y][1..] == [y];
    } else {
      assert (xs + [y])[1..] == xs[1..] + [y];
      JoinSnoc(xs[1..], y, sep);
    }
  }

  /** `MyJoin::join` for `BTreeSet<String>`: the members in ascending order,
      `sep` between consecutive ones. */
  function JoinSet(items: set<string>, sep: string): (r: string)
    ensures |items| == 0 ==> r == ""
    ensures |items| == 1 ==> r == Least(items)
  {
    Join(SortedElements(items), sep)
  }

  /** The join of a set is the join of its (unique) ascending enumeration. */
  lemma JoinSetAscending(items: set<string>, xs: seq<string>, sep: string)
    requires AscendingEnumeration(xs, items)
    ensures JoinSet(items, sep) == Join(xs, sep)
  {
    AscendingEnumerationUnique(xs, SortedElements(items), items);
  }

  /** A set of two or more: the least member, the separator, then the rest joined. */
  lemma JoinSetLeastFirst(items: set<string>, sep: string)
    requires |items| >= 2
    ensures JoinSet(items, sep) == Least(items) + sep + JoinSet(items - {Least(items)}, sep)
  {
  }

  /** A singleton joins to its only element, whatever the separator. */
  lemma JoinSetSingleton(a: string, sep: string)
    ensures JoinSet({a}, sep) == a
  {
    assert IsLeast(a, {a});
    LeastUnique({a});
  }

  /** Two elements join smaller first, separated once. */
  lemma JoinSetPair(a: string, b: string, sep: string)
    requires StrLess(a, b)
    ensures JoinSet({a, b}, sep) == a + sep + b
  {
    StrLessIrreflexive(a);
    var xs := [a, b];
    assert xs[1..] == [b];
    assert AscendingEnumeration(xs, {a, b});
    JoinSetAscending({a, b}, xs, sep);
  }

  /** The cases spelled out for `BTreeSet::join`: `{}`, `{a}`, `{a, b}` with `""` and `","`. */
  lemma JoinExamples()
    ensures JoinSet({}, "") == "" && JoinSet({}, ",") == ""
    ensures JoinSet({"a"}, "") == "a" && JoinSet({"a"}, ",") == "a"
    ensures JoinSet({"a", "b"}, "") == "ab" && JoinSet({"a", "b"}, ",") == "a,b"
  {
    JoinSetSingleton("a", "");
    JoinSetSingleton("a", ",");
    assert StrLess("a", "b");
    JoinSetPair("a", "b", "");
    JoinSetPair("a", "b", ",");
  }
}
