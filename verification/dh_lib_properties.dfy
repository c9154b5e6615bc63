/** Properties of the debhelper core that relate several calls or hold for all
    inputs, and the behaviour the unit tests of `src/dh_lib.rs` check, stated
    as lemmas over the model. */
module DhLibProperties {
  import opened Errors
  import opened Strings
  import opened Util
  import opened DhLib

  // ---------------------------------------------------------------------------
  // pkgfile
  // ---------------------------------------------------------------------------

  /** The override precedence of `pkgfile`: package+unit, then unit alone (main
      package only), then package, then the bare file name (main package only). */
  lemma PkgFilePrecedence(fs: FileSystem, dir: string, mainPackage: string, package: string,
                          filename: string, unitName: Option<string>)
    ensures PkgFile(fs, dir, mainPackage, package, filename, unitName) ==
      if unitName.Some? && IsPathFile(fs, JoinPath(dir, package + "." + unitName.value + "." + filename))
        then Some(JoinPath(dir, package + "." + unitName.value + "." + filename))
      else if unitName.Some? && mainPackage == package && IsPathFile(fs, JoinPath(dir, unitName.value + "." + filename))
        then Some(JoinPath(dir, unitName.value + "." + filename))
      else if IsPathFile(fs, JoinPath(dir, package + "." + filename))
        then Some(JoinPath(dir, package + "." + filename))
      else if mainPackage == package && IsPathFile(fs, JoinPath(dir, filename))
        then Some(JoinPath(dir, filename))
      else None
  {
    var paths := Candidates(dir, mainPackage, package, filename, unitName);
    var un := if unitName.Some? then unitName.value else "";
    var pu := JoinPath(dir, package + "." + un + "." + filename);
    var u := JoinPath(dir, un + "." + filename);
    var p := JoinPath(dir, package + "." + filename);
    var f := JoinPath(dir, filename);
    assert package + "." + (un + "." + filename) == package + "." + un + "." + filename;
    var i := FirstFileIndex(fs, paths);
    if unitName.Some? {
      if mainPackage == package {
        assert paths == [pu, u, p, f];
        assert paths[0] == pu && paths[1] == u && paths[2] == p && paths[3] == f;
        if IsPathFile(fs, pu) {
          assert i == 0;
        } else if IsPathFile(fs, u) {
          assert i == 1;
        } else if IsPathFile(fs, p) {
          assert i == 2;
        } else if IsPathFile(fs, f) {
          assert i == 3;
        } else {
          assert i == 4;
        }
      } else {
        assert paths == [pu, p];
        assert paths[0] == pu && paths[1] == p;
        if IsPathFile(fs, pu) {
          assert i == 0;
        } else if IsPathFile(fs, p) {
          assert i == 1;
        } else {
          assert i == 2;
        }
      }
    } else {
      if mainPackage == package {
        assert paths == [p, f];
        assert paths[0] == p && paths[1] == f;
        if IsPathFile(fs, p) {
          assert i == 0;
        } else if IsPathFile(fs, f) {
          assert i == 1;
        } else {
          assert i == 2;
        }
      } else {
        assert paths == [p];
      }
    }
  }

  /** With a unit name, the unit-only file of the main package wins over the
      package file, although the doc comment of `pkgfile` lists it after. */
  lemma UnitFileBeatsPackageFile(fs: FileSystem, dir: string, package: string, filename: string, unit: string)
    requires !IsPathFile(fs, JoinPath(dir, package + "." + unit + "." + filename))
    requires IsPathFile(fs, JoinPath(dir, unit + "." + filename))
    requires IsPathFile(fs, JoinPath(dir, package + "." + filename))
    ensures PkgFile(fs, dir, package, package, filename, Some(unit)) == Some(JoinPath(dir, unit + "." + filename))
  {
    PkgFilePrecedence(fs, dir, package, package, filename, Some(unit));
  }

  // The `pkgfile` tests. Each expectation is first proved for every filesystem
  // that holds, or lacks, the paths it depends on, then for the test's own
  // filesystem.

  /** The candidate paths of the tests, spelled out. */
  lemma TestUnitNames()
    ensures JoinPath("/parent/dir/", "mypkg" + "." + "myunit" + "." + "postinst") == "/parent/dir/mypkg.myunit.postinst"
    ensures JoinPath("/parent/dir/", "myunit" + "." + "postinst") == "/parent/dir/myunit.postinst"
  {
  }

  lemma TestWrongUnitNames()
    ensures JoinPath("/parent/dir/", "mypkg" + "." + "wrongunit" + "." + "postinst") == "/parent/dir/mypkg.wrongunit.postinst"
    ensures JoinPath("/parent/dir/", "wrongunit" + "." + "postinst") == "/parent/dir/wrongunit.postinst"
  {
  }

  lemma TestPackageNames()
    ensures JoinPath("/parent/dir/", "mypkg" + "." + "postinst") == "/parent/dir/mypkg.postinst"
    ensures JoinPath("/parent/dir/", "postinst") == "/parent/dir/postinst"
    ensures JoinPath("/parent/dir/", "wrongpkg" + "." + "postinst") == "/parent/dir/wrongpkg.postinst"
  {
  }

  lemma TestMissingNames()
    ensures JoinPath("/parent/dir/", "mypkg" + "." + "wrongfile") == "/parent/dir/mypkg.wrongfile"
    ensures JoinPath("/parent/dir/", "wrongfile") == "/parent/dir/wrongfile"
    ensures JoinPath("/wrong/dir/", "mypkg" + "." + "postinst") == "/wrong/dir/mypkg.postinst"
    ensures JoinPath("/wrong/dir/", "postinst") == "/wrong/dir/postinst"
  {
  }

  /** A package+unit file is found first. */
  lemma FindsPackageUnitFile(fs: FileSystem)
    requires IsPathFile(fs, "/parent/dir/mypkg.myunit.postinst")
    ensures PkgFile(fs, "/parent/dir/", "mypkg", "mypkg", "postinst", Some("myunit"))
      == Some("/parent/dir/mypkg.myunit.postinst")
  {
    TestUnitNames();
    PkgFilePrecedence(fs, "/parent/dir/", "mypkg", "mypkg", "postinst", Some("myunit"));
  }

  /** Without a unit, the package file is found first. */
  lemma FindsPackageFile(fs: FileSystem)
    requires IsPathFile(fs, "/parent/dir/mypkg.postinst")
    ensures PkgFile(fs, "/parent/dir/", "mypkg", "mypkg", "postinst", None) == Some("/parent/dir/mypkg.postinst")
  {
    TestPackageNames();
    PkgFilePrecedence(fs, "/parent/dir/", "mypkg", "mypkg", "postinst", None);
  }

  /** With no unit-specific file, the package file is found. */
  lemma FindsPackageFileForUnit(fs: FileSystem)
    requires !IsPathFile(fs, "/parent/dir/mypkg.myunit.postinst") && !IsPathFile(fs, "/parent/dir/myunit.postinst")
    requires IsPathFile(fs, "/parent/dir/mypkg.postinst")
    ensures PkgFile(fs, "/parent/dir/", "mypkg", "mypkg", "postinst", Some("myunit"))
      == Some("/parent/dir/mypkg.postinst")
  {
    TestUnitNames();
    TestPackageNames();
    PkgFilePrecedence(fs, "/parent/dir/", "mypkg", "mypkg", "postinst", Some("myunit"));
  }

  /** A unit nobody supplied files for falls back to the package file. */
  lemma FindsPackageFileForWrongUnit(fs: FileSystem)
    requires !IsPathFile(fs, "/parent/dir/mypkg.wrongunit.postinst") && !IsPathFile(fs, "/parent/dir/wrongunit.postinst")
    requires IsPathFile(fs, "/parent/dir/mypkg.postinst")
    ensures PkgFile(fs, "/parent/dir/", "mypkg", "mypkg", "postinst", Some("wrongunit"))
      == Some("/parent/dir/mypkg.postinst")
  {
    TestWrongUnitNames();
    TestPackageNames();
    PkgFilePrecedence(fs, "/parent/dir/", "mypkg", "mypkg", "postinst", Some("wrongunit"));
  }

  /** With no package+unit file, the unit-only file is found. */
  lemma FindsUnitFile(fs: FileSystem)
    requires !IsPathFile(fs, "/parent/dir/mypkg.myunit.postinst") && IsPathFile(fs, "/parent/dir/myunit.postinst")
    ensures PkgFile(fs, "/parent/dir/", "mypkg", "mypkg", "postinst", Some("myunit"))
      == Some("/parent/dir/myunit.postinst")
  {
    TestUnitNames();
    PkgFilePrecedence(fs, "/parent/dir/", "mypkg", "mypkg", "postinst", Some("myunit"));
  }

  /** With no file for the package, whichever package it is, the bare file
      name is found. */
  lemma FindsBareFile(fs: FileSystem, package: string)
    requires !IsPathFile(fs, JoinPath("/parent/dir/", package + "." + "postinst")) && IsPathFile(fs, "/parent/dir/postinst")
    ensures PkgFile(fs, "/parent/dir/", package, package, "postinst", None) == Some("/parent/dir/postinst")
  {
    TestPackageNames();
    PkgFilePrecedence(fs, "/parent/dir/", package, package, "postinst", None);
  }

  /** A file name or directory nobody supplied files for finds nothing. */
  lemma FindsNothing(fs: FileSystem)
    requires !IsPathFile(fs, "/parent/dir/mypkg.wrongfile") && !IsPathFile(fs, "/parent/dir/wrongfile")
    requires !IsPathFile(fs, "/wrong/dir/mypkg.postinst") && !IsPathFile(fs, "/wrong/dir/postinst")
    ensures PkgFile(fs, "/parent/dir/", "mypkg", "mypkg", "wrongfile", None) == None
    ensures PkgFile(fs, "/wrong/dir/", "mypkg", "mypkg", "postinst", None) == None
  {
    TestMissingNames();
    PkgFilePrecedence(fs, "/parent/dir/", "mypkg", "mypkg", "wrongfile", None);
    PkgFilePrecedence(fs, "/wrong/dir/", "mypkg", "mypkg", "postinst", None);
  }

  /** The filesystem most `pkgfile` tests start from. */
  const TestPaths: seq<string> := [
    "/parent/dir/postinst",
    "/parent/dir/myunit.postinst",
    "/parent/dir/mypkg.postinst",
    "/parent/dir/mypkg.myunit.postinst",
    "/parent/dir/nested/mypkg.myunit.postinst",
    "/parent/mypkg.myunit.postinst"
  ]

  /** The paths the full test filesystem holds that the tests look up. */
  lemma TestFsFiles()
    ensures var fs := AddTestFsPaths(map[], TestPaths);
      && IsPathFile(fs, "/parent/dir/mypkg.myunit.postinst")
      && IsPathFile(fs, "/parent/dir/mypkg.postinst")
      && IsPathFile(fs, "/parent/dir/postinst")
  {
    assert "/parent/dir/postinst" == TestPaths[0];
    assert "/parent/dir/mypkg.postinst" == TestPaths[2];
    assert "/parent/dir/mypkg.myunit.postinst" == TestPaths[3];
  }

  /** The paths the tests look up that the full test filesystem lacks. */
  lemma TestFsWrongUnit()
    ensures var fs := AddTestFsPaths(map[], TestPaths);
      && !IsPathFile(fs, "/parent/dir/mypkg.wrongunit.postinst")
      && !IsPathFile(fs, "/parent/dir/wrongunit.postinst")
      && !IsPathFile(fs, "/parent/dir/wrongpkg.postinst")
  {
  }

  lemma TestFsWrongFile()
    ensures var fs := AddTestFsPaths(map[], TestPaths);
      !IsPathFile(fs, "/parent/dir/mypkg.wrongfile") && !IsPathFile(fs, "/parent/dir/wrongfile")
  {
  }

  lemma TestFsWrongDir()
    ensures var fs := AddTestFsPaths(map[], TestPaths);
      !IsPathFile(fs, "/wrong/dir/mypkg.postinst") && !IsPathFile(fs, "/wrong/dir/postinst")
  {
  }

  /** pkgfile_finds_most_specific_match_with_pkg_unit_file */
  lemma PkgFileWithPackageUnitFile()
    ensures var fs := AddTestFsPaths(map[], TestPaths);
      && PkgFile(fs, "/parent/dir/", "mypkg", "mypkg", "postinst", Some("myunit"))
           == Some("/parent/dir/mypkg.myunit.postinst")
      && PkgFile(fs, "/parent/dir/", "mypkg", "mypkg", "postinst", None) == Some("/parent/dir/mypkg.postinst")
  {
    TestFsFiles();
    FindsPackageUnitFile(AddTestFsPaths(map[], TestPaths));
    FindsPackageFile(AddTestFsPaths(map[], TestPaths));
  }

  /** pkgfile_finds_most_specific_match_without_unit_file */
  lemma PkgFileWithoutUnitFile()
    ensures var fs := AddTestFsPaths(map[], ["/parent/dir/postinst", "/parent/dir/mypkg.postinst"]);
      && PkgFile(fs, "/parent/dir/", "mypkg", "mypkg", "postinst", Some("myunit")) == Some("/parent/dir/mypkg.postinst")
      && PkgFile(fs, "/parent/dir/", "mypkg", "mypkg", "postinst", None) == Some("/parent/dir/mypkg.postinst")
  {
    var fs := AddTestFsPaths(map[], ["/parent/dir/postinst", "/parent/dir/mypkg.postinst"]);
    FindsPackageFileForUnit(fs);
    FindsPackageFile(fs);
  }

  /** pkgfile_finds_most_specific_match_without_pkg_file */
  lemma PkgFileWithoutPackageFile()
    ensures var fs := AddTestFsPaths(map[], ["/parent/dir/postinst", "/parent/dir/myunit.postinst"]);
      && PkgFile(fs, "/parent/dir/", "mypkg", "mypkg", "postinst", Some("myunit")) == Some("/parent/dir/myunit.postinst")
      && PkgFile(fs, "/parent/dir/", "mypkg", "mypkg", "postinst", None) == Some("/parent/dir/postinst")
  {
    var fs := AddTestFsPaths(map[], ["/parent/dir/postinst", "/parent/dir/myunit.postinst"]);
    FindsUnitFile(fs);
    TestPackageNames();
    FindsBareFile(fs, "mypkg");
  }

  /** pkgfile_finds_a_fallback_match */
  lemma PkgFileFallback()
    ensures var fs := AddTestFsPaths(map[], TestPaths);
      && PkgFile(fs, "/parent/dir/", "mypkg", "mypkg", "postinst", Some("wrongunit")) == Some("/parent/dir/mypkg.postinst")
      && PkgFile(fs, "/parent/dir/", "wrongpkg", "wrongpkg", "postinst", None) == Some("/parent/dir/postinst")
  {
    var fs := AddTestFsPaths(map[], TestPaths);
    TestFsFiles();
    TestFsWrongUnit();
    FindsPackageFileForWrongUnit(fs);
    TestPackageNames();
    FindsBareFile(fs, "wrongpkg");
  }

  /** pkgfile_fails_to_find_a_match */
  lemma PkgFileNoMatch()
    ensures var fs := AddTestFsPaths(map[], TestPaths);
      && PkgFile(fs, "/parent/dir/", "mypkg", "mypkg", "wrongfile", None) == None
      && PkgFile(fs, "/wrong/dir/", "mypkg", "mypkg", "postinst", None) == None
  {
    TestFsWrongFile();
    TestFsWrongDir();
    FindsNothing(AddTestFsPaths(map[], TestPaths));
  }

  // ---------------------------------------------------------------------------
  // autoscript
  // ---------------------------------------------------------------------------

  /** Normalising twice is normalising once. */
  lemma NormalizeNewlineIdempotent(s: string)
    ensures NormalizeNewline(NormalizeNewline(s)) == NormalizeNewline(s)
  {
  }

  /** One accumulation, stated uniformly: the block goes before whatever the
      entry held in a removal script and after it in any other. */
  lemma AutoscriptEntry(scripts: ScriptFragments, binName: string, package: string, script: string,
                        name: string, reps: Replacements, store: TemplateStore)
    requires |reps| > 0 && name in store
    ensures var r := Autoscript(scripts, binName, package, script, name, reps, store);
      var key := FragmentKey(package, script);
      var block := Block(binName, AutoscriptSed(store, name, reps).value);
      && r.Ok?
      && r.value.Keys == scripts.Keys + {key}
      && r.value[key] == if IsRemovalScript(script) then block + Existing(scripts, key)
                         else Existing(scripts, key) + block
  {
    var key := FragmentKey(package, script);
    var block := Block(binName, AutoscriptSed(store, name, reps).value);
    if IsRemovalScript(script) && key !in scripts {
      assert Existing(scripts, key) == "";
      assert block + "" == block && "" + block == block;
    }
  }

  /** Two accumulations into the same entry: the second block runs first in a
      removal script and last in any other. */
  lemma AutoscriptTwice(scripts: ScriptFragments, binName: string, package: string, script: string,
                        nameA: string, repsA: Replacements, nameB: string, repsB: Replacements,
                        store: TemplateStore)
    requires |repsA| > 0 && nameA in store
    requires |repsB| > 0 && nameB in store
    ensures Autoscript(scripts, binName, package, script, nameA, repsA, store).Ok?
    ensures var once := Autoscript(scripts, binName, package, script, nameA, repsA, store).value;
      var twice := Autoscript(once, binName, package, script, nameB, repsB, store);
      var key := FragmentKey(package, script);
      var a := Block(binName, AutoscriptSed(store, nameA, repsA).value);
      var b := Block(binName, AutoscriptSed(store, nameB, repsB).value);
      && twice.Ok?
      && twice.value.Keys == scripts.Keys + {key}
      && twice.value[key] == if IsRemovalScript(script) then b + a + Existing(scripts, key)
                             else Existing(scripts, key) + a + b
  {
    var key := FragmentKey(package, script);
    var a := Block(binName, AutoscriptSed(store, nameA, repsA).value);
    var b := Block(binName, AutoscriptSed(store, nameB, repsB).value);
    AutoscriptEntry(scripts, binName, package, script, nameA, repsA, store);
    var once := Autoscript(scripts, binName, package, script, nameA, repsA, store).value;
    AutoscriptEntry(once, binName, package, script, nameB, repsB, store);
    var twice := Autoscript(once, binName, package, script, nameB, repsB, store).value;
    assert Existing(once, key) == once[key];
    assert twice.Keys == scripts.Keys + {key} by {
      assert once.Keys == scripts.Keys + {key};
    }
    StackTwice(IsRemovalScript(script), Existing(scripts, key), a, b, once[key], twice[key]);
  }

  /** Stacking two blocks on an entry, before it or after it. */
  lemma StackTwice(before: bool, existing: string, a: string, b: string, once: string, twice: string)
    requires once == if before then a + existing else existing + a
    requires twice == if before then b + once else once + b
    ensures twice == if before then b + a + existing else existing + a + b
  {
  }

  /** The block rendered from a template has two lines more than the template
      as `get_embedded_autoscript` returns it, when no placeholder and not the
      binary name spans lines. */
  lemma TemplateBlockLineCount(binName: string, store: TemplateStore, name: string, reps: Replacements)
    requires name in store && SingleLine(reps) && '\n' !in binName
    ensures LineCount(Block(binName, AutoscriptSed(store, name, reps).value))
      == LineCount(GetEmbeddedAutoscript(store, name).value) + 2
    ensures EndsWithChar(Block(binName, AutoscriptSed(store, name, reps).value), '\n')
  {
    RenderedLineCount(store, name, reps);
    BlockLineCount(binName, AutoscriptSed(store, name, reps).value);
  }

  /** Into an empty table, `autoscript` stores the block alone under the fragment key. */
  lemma AutoscriptIntoEmpty(binName: string, package: string, script: string, name: string,
                            reps: Replacements, store: TemplateStore)
    requires name in store && |reps| > 0
    ensures var r := Autoscript(map[], binName, package, script, name, reps, store);
      && r.Ok? && r.value.Keys == {FragmentKey(package, script)}
      && r.value[FragmentKey(package, script)] == Block(binName, AutoscriptSed(store, name, reps).value)
  {
    var key := FragmentKey(package, script);
    var a := Block(binName, AutoscriptSed(store, name, reps).value);
    var r := Autoscript(map[], binName, package, script, name, reps, store);
    assert r.Ok? && r.value.Keys == {key};
    assert r.value[key] == a by {
      assert Existing(map[], key) == "";
      assert "" + a == a;
    }
  }

  /** The line arithmetic of the detailed autoscript test: one block adds two
      lines to the template, two blocks hold twice as many lines. */
  lemma AutoscriptLineCounts(binName: string, package: string, script: string, name: string,
                             repsA: Replacements, repsB: Replacements, store: TemplateStore)
    requires name in store
    requires |repsA| > 0 && |repsB| > 0 && SingleLine(repsA) && SingleLine(repsB)
    requires '\n' !in binName
    ensures var once := Autoscript(map[], binName, package, script, name, repsA, store);
      var key := FragmentKey(package, script);
      && once.Ok? && once.value.Keys == {key}
      && LineCount(once.value[key]) == LineCount(GetEmbeddedAutoscript(store, name).value) + 2
      && var twice := Autoscript(once.value, binName, package, script, name, repsB, store);
         twice.Ok? && twice.value.Keys == {key}
         && LineCount(twice.value[key]) == (LineCount(GetEmbeddedAutoscript(store, name).value) + 2) * 2
  {
    var key := FragmentKey(package, script);
    var a := Block(binName, AutoscriptSed(store, name, repsA).value);
    var b := Block(binName, AutoscriptSed(store, name, repsB).value);
    TemplateBlockLineCount(binName, store, name, repsA);
    TemplateBlockLineCount(binName, store, name, repsB);
    AutoscriptIntoEmpty(binName, package, script, name, repsA, store);
    var once := Autoscript(map[], binName, package, script, name, repsA, store).value;
    var twice := Autoscript(once, binName, package, script, name, repsB, store);
    assert twice.Ok? && twice.value.Keys == {key};
    if IsRemovalScript(script) {
      assert twice.value[key] == b + a;
      LineCountConcat(b, a);
    } else {
      assert twice.value[key] == a + b;
      LineCountConcat(a, b);
    }
  }

  /** After two accumulations into an empty table, the entry still opens with
      the banner naming the binary and closes with the end banner. */
  lemma AutoscriptTwiceFraming(binName: string, package: string, script: string, name: string,
                               repsA: Replacements, repsB: Replacements, store: TemplateStore)
    requires name in store && |repsA| > 0 && |repsB| > 0
    ensures var once := Autoscript(map[], binName, package, script, name, repsA, store).value;
      var twice := Autoscript(once, binName, package, script, name, repsB, store);
      var key := FragmentKey(package, script);
      && twice.Ok? && key in twice.value
      && StartsWith(twice.value[key], BannerLead + binName + "\n")
      && EndsWith(twice.value[key], BannerClose)
  {
    var key := FragmentKey(package, script);
    var a := Block(binName, AutoscriptSed(store, name, repsA).value);
    var b := Block(binName, AutoscriptSed(store, name, repsB).value);
    AutoscriptIntoEmpty(binName, package, script, name, repsA, store);
    var once := Autoscript(map[], binName, package, script, name, repsA, store).value;
    var twice := Autoscript(once, binName, package, script, name, repsB, store);
    BlockFraming(binName, AutoscriptSed(store, name, repsA).value);
    BlockFraming(binName, AutoscriptSed(store, name, repsB).value);
    var open := BannerLead + binName + "\n";
    if IsRemovalScript(script) {
      assert twice.value[key] == b + a;
      ConcatKeepsEnds(b, a, open, BannerClose);
    } else {
      assert twice.value[key] == a + b;
      ConcatKeepsEnds(a, b, open, BannerClose);
    }
  }

  /** The failure cases of the autoscript tests: an empty placeholder map fails
      before any template lookup, a missing template fails by name. */
  lemma AutoscriptFailureExamples(store: TemplateStore, binName: string)
    requires "idontexist" !in store
    ensures Autoscript(map[], binName, "mypkg", "somescript", "idontexist", [("UNITFILES", "dummyunit")], store)
      == Err(UnknownTemplate("idontexist"))
    ensures Autoscript(map[], binName, "mypkg", "somescript", "idontexist", [], store) == Err(SedModeUnsupported)
  {
  }

  // ---------------------------------------------------------------------------
  // debhelper_script_subst
  // ---------------------------------------------------------------------------

  /** User text before the first marker is kept byte for byte, whatever
      characters it holds, and that marker becomes the generated text. */
  lemma SpliceAtMarker(before: string, after: string, generated: string)
    requires NoOccurrenceBefore(before + Marker + after, Marker, |before|)
    ensures ReplaceAll(before + Marker + after, Marker, generated)
      == before + generated + ReplaceAll(after, Marker, generated)
  {
    assert before + Marker + after == before + (Marker + after);
    ReplaceAllKeepsPrefix(before, Marker + after, Marker, generated);
    ReplaceAllAtHead(after, Marker, generated);
  }

  // The `debhelper_script_subst` tests: user scripts are looked up in the
  // current directory (the empty path) for package `mypkg`, without a unit.

  /** The paths and the fragment key the tests look up, spelled out. */
  lemma SubstTestNames(script: string)
    ensures JoinPath("", "mypkg" + "." + script) == "mypkg." + script
    ensures JoinPath("", script) == script
    ensures FragmentKey("mypkg", script) == "mypkg." + script + ".debhelper"
  {
    assert "" + script == script;
    assert ("mypkg" + "." + script)[0] == 'm';
  }

  /** A bare user script is found when no package-specific one exists. */
  lemma FindsBareUserScript(fs: FileSystem, script: string)
    requires !IsPathFile(fs, "mypkg." + script) && IsPathFile(fs, script)
    ensures UserScript(fs, "", "mypkg", script, None) == Some(script)
  {
    SubstTestNames(script);
    PkgFilePrecedence(fs, "", "mypkg", "mypkg", script, None);
  }

  /** No user script is found where neither candidate exists. */
  lemma FindsNoUserScript(fs: FileSystem, script: string)
    requires !IsPathFile(fs, "mypkg." + script) && !IsPathFile(fs, script)
    ensures UserScript(fs, "", "mypkg", script, None) == None
  {
    SubstTestNames(script);
    PkgFilePrecedence(fs, "", "mypkg", "mypkg", script, None);
  }

  /** `invalid_user_file`: text without the marker. */
  lemma InvalidUserText()
    ensures !Contains("some content", Marker)
  {
    assert '#' !in "some content";
    NoStartNotContains("some content", Marker);
  }

  /** A user script holding exactly one marker: the text holds the marker, and
      replacing it leaves the text before and after around the generated one. */
  lemma SpliceBetween(before: string, after: string, generated: string)
    requires NoOccurrenceBefore(before + Marker + after, Marker, |before|)
    requires !Contains(after, Marker)
    ensures Contains(before + Marker + after, Marker)
    ensures ReplaceAll(before + Marker + after, Marker, generated) == before + generated + after
  {
    SpliceAtMarker(before, after, generated);
    ReplaceAllNoMatch(after, Marker, generated);
    assert OccursAt(before + Marker + after, Marker, |before|);
  }

  /** `valid_user_file`: the marker between two words, replaced by no fragments. */
  lemma ValidUserText()
    ensures Contains("some #DEBHELPER# content", Marker)
    ensures ReplaceAll("some #DEBHELPER# content", Marker, "") == "some  content"
  {
    assert "some #DEBHELPER# content" == "some " + Marker + " content";
    assert "some " + "" + " content" == "some  content";
    assert '#' !in "some " && '#' !in " content";
    NoStartNoOccurrence("some ", Marker + " content", Marker);
    assert "some " + Marker + " content" == "some " + (Marker + " content");
    NoStartNotContains(" content", Marker);
    SpliceBetween("some ", " content", "");
  }

  /** A first line that is a `#!` line, or any line whose only '#' is its
      first character and is not followed by 'D', holds no marker. */
  lemma CommentLineNoMarker(before: string, rest: string)
    requires |before| >= 2 && before[0] == '#' && before[1] != 'D' && '#' !in before[1..]
    ensures NoOccurrenceBefore(before + rest, Marker, |before|)
  {
    var text := before + rest;
    forall i | 0 <= i < |before|
      ensures !OccursAt(text, Marker, i)
    {
      if i == 0 {
        assert i + |Marker| <= |text| ==> text[i..i + |Marker|][1] == text[1];
      } else {
        assert text[i] == before[1..][i - 1];
        assert i + |Marker| <= |text| ==> text[i..i + |Marker|][0] == text[i];
      }
    }
  }

  lemma ShebangTextPieces()
    ensures "#!/bin/sh\n#DEBHELPER#\nexit 0\n" == "#!/bin/sh\n" + Marker + "\nexit 0\n"
    ensures "#!/bin/sh\n"[1..] == "!/bin/sh\n" && '#' !in "\nexit 0\n"
  {
  }

  /** A typical maintainer script: the shebang line before the marker, which
      itself starts with '#', is kept, and so is the rest of the script. */
  lemma ShebangUserText(text: string, generated: string)
    requires text == "#!/bin/sh\n#DEBHELPER#\nexit 0\n"
    ensures Contains(text, Marker)
    ensures ReplaceAll(text, Marker, generated) == "#!/bin/sh\n" + generated + "\nexit 0\n"
  {
    var before, after := "#!/bin/sh\n", "\nexit 0\n";
    ShebangTextPieces();
    CommentLineNoMarker(before, Marker + after);
    assert before + (Marker + after) == before + Marker + after;
    NoStartNotContains(after, Marker);
    SpliceBetween(before, after, generated);
  }

  /** debhelper_script_subst_with_no_matching_files */
  lemma ScriptSubstNoMatchingFiles()
    ensures DebhelperScriptSubst(map[], "", map[], "mypkg", "myscript", None) == Ok(map[])
  {
    FindsNoUserScript(map[], "myscript");
  }

  /** debhelper_script_subst_errs_if_user_file_lacks_token */
  lemma ScriptSubstLacksToken()
    ensures DebhelperScriptSubst(SetTestFsPathContent(map[], "myscript", "some content"), "", map[],
                                 "mypkg", "myscript", None)
      == Err(DebHelperReplaceFailed("myscript"))
  {
    var fs := SetTestFsPathContent(map[], "myscript", "some content");
    assert "mypkg.myscript" != "myscript";
    FindsBareUserScript(fs, "myscript");
    InvalidUserText();
  }

  /** debhelper_script_subst_with_user_file_only */
  lemma ScriptSubstUserFileOnly()
    ensures DebhelperScriptSubst(SetTestFsPathContent(map[], "myscript", "some #DEBHELPER# content"), "", map[],
                                 "mypkg", "myscript", None)
      == Ok(map["myscript" := "some  content"])
  {
    var fs := SetTestFsPathContent(map[], "myscript", "some #DEBHELPER# content");
    assert "mypkg.myscript" != "myscript";
    FindsBareUserScript(fs, "myscript");
    ValidUserText();
  }

  /** Fragments but no user script: the fragments behind the shebang header are
      stored next to them. */
  lemma GeneratedOnly(script: string, text: string)
    ensures var key := FragmentKey("mypkg", script);
      var r := DebhelperScriptSubst(map[], "", map[key := text], "mypkg", script, None);
      && r.Ok? && r.value.Keys == {key, script}
      && r.value[script] == Shebang + text
  {
    var key := FragmentKey("mypkg", script);
    FindsNoUserScript(map[], script);
    assert ComposedScript(map[], "", map[key := text], "mypkg", script, None) == Ok(Some(Shebang + text));
    var r := DebhelperScriptSubst(map[], "", map[key := text], "mypkg", script, None);
    assert r == Ok(map[key := text][script := Shebang + text]);
  }

  lemma GeneratedOnlyNames()
    ensures FragmentKey("mypkg", "myscript") == "mypkg.myscript.debhelper"
    ensures Shebang + "some content" == "#!/bin/sh\nset -e\nsome content"
  {
  }

  /** debhelper_script_subst_with_generated_file_only */
  lemma ScriptSubstGeneratedFileOnly()
    ensures var r := DebhelperScriptSubst(map[], "", map["mypkg.myscript.debhelper" := "some content"],
                                          "mypkg", "myscript", None);
      && r.Ok? && r.value.Keys == {"mypkg.myscript.debhelper", "myscript"}
      && r.value["myscript"] == "#!/bin/sh\nset -e\nsome content"
  {
    GeneratedOnlyNames();
    GeneratedOnly("myscript", "some content");
  }

  // ---------------------------------------------------------------------------
  // apply
  // ---------------------------------------------------------------------------

  /** Both tables agree on `key`. */
  predicate SameEntry(s1: ScriptFragments, s2: ScriptFragments, key: string) {
    (key in s1 <==> key in s2) && (key in s1 ==> s1[key] == s2[key])
  }

  /** `r` holds under `script` what composing it from table `s` produces. */
  predicate HoldsComposed(fs: FileSystem, userScriptsDir: string, s: ScriptFragments, package: string,
                          unitName: Option<string>, script: string, r: ScriptFragments)
  {
    var c := ComposedScript(fs, userScriptsDir, s, package, script, unitName);
    c.Ok? && (if c.value.Some? then script in r && r[script] == c.value.value else SameEntry(s, r, script))
  }

  /** Composing a script reads the table only at its own fragment entry. */
  lemma ComposedScriptFrame(fs: FileSystem, userScriptsDir: string, s1: ScriptFragments, s2: ScriptFragments,
                            package: string, script: string, unitName: Option<string>)
    requires SameEntry(s1, s2, FragmentKey(package, script))
    ensures ComposedScript(fs, userScriptsDir, s1, package, script, unitName)
         == ComposedScript(fs, userScriptsDir, s2, package, script, unitName)
  {
  }

  /** Every name is at most ten characters long, so none is a fragment key. */
  predicate ShortNames(kinds: seq<string>) {
    forall i :: 0 <= i < |kinds| ==> |kinds[i]| <= 10
  }

  /** No name is listed twice. */
  predicate Distinct(kinds: seq<string>) {
    forall i, j :: 0 <= i < j < |kinds| ==> kinds[i] != kinds[j]
  }

  /** Storing a composed script under a short name leaves the fragment entry of
      every script, and so what composing it produces, as it was. */
  lemma SubstKeepsComposed(fs: FileSystem, userScriptsDir: string, s: ScriptFragments, package: string,
                           unitName: Option<string>, k: string, script: string)
    requires |k| <= 10
    requires DebhelperScriptSubst(fs, userScriptsDir, s, package, k, unitName).Ok?
    ensures ComposedScript(fs, userScriptsDir, DebhelperScriptSubst(fs, userScriptsDir, s, package, k, unitName).value,
                           package, script, unitName)
         == ComposedScript(fs, userScriptsDir, s, package, script, unitName)
  {
    var s1 := DebhelperScriptSubst(fs, userScriptsDir, s, package, k, unitName).value;
    assert |FragmentKey(package, script)| > 10;
    assert SameEntry(s1, s, FragmentKey(package, script));
    ComposedScriptFrame(fs, userScriptsDir, s1, s, package, script, unitName);
  }

  /** One step of the fold: compose the first script, then the rest from the result. */
  lemma ApplyScriptsStep(fs: FileSystem, userScriptsDir: string, s: ScriptFragments, package: string,
                         unitName: Option<string>, kinds: seq<string>)
    requires |kinds| > 0
    ensures var step := DebhelperScriptSubst(fs, userScriptsDir, s, package, kinds[0], unitName);
      ApplyScripts(fs, userScriptsDir, s, package, unitName, kinds)
        == if step.Err? then Err(step.error)
           else ApplyScripts(fs, userScriptsDir, step.value, package, unitName, kinds[1..])
  {
  }

  /** Composing a list of scripts in turn succeeds iff composing each one from
      the original table succeeds. */
  lemma {:induction false} ApplyScriptsOk(fs: FileSystem, userScriptsDir: string, s: ScriptFragments,
                                          package: string, unitName: Option<string>, kinds: seq<string>)
    requires ShortNames(kinds)
    ensures ApplyScripts(fs, userScriptsDir, s, package, unitName, kinds).Ok? <==>
      forall i :: 0 <= i < |kinds| ==> ComposedScript(fs, userScriptsDir, s, package, kinds[i], unitName).Ok?
    decreases |kinds|
  {
    if |kinds| > 0 {
      var k := kinds[0];
      var rest := kinds[1..];
      var step := DebhelperScriptSubst(fs, userScriptsDir, s, package, k, unitName);
      ApplyScriptsStep(fs, userScriptsDir, s, package, unitName, kinds);
      if step.Ok? {
        var s1 := step.value;
        assert ShortNames(rest);
        ApplyScriptsOk(fs, userScriptsDir, s1, package, unitName, rest);
        forall i | 0 <= i < |rest|
          ensures ComposedScript(fs, userScriptsDir, s1, package, rest[i], unitName)
               == ComposedScript(fs, userScriptsDir, s, package, kinds[i + 1], unitName)
        {
          SubstKeepsComposed(fs, userScriptsDir, s, package, unitName, k, rest[i]);
        }
        assert forall i :: 0 <= i < |kinds| ==> (i == 0 || kinds[i] == rest[i - 1]);
      }
    }
  }

  /** Composing the scripts after the first one, from the table the first one
      left behind, is composing them from the original table. */
  lemma ComposedAfterStep(fs: FileSystem, userScriptsDir: string, s: ScriptFragments,
                          package: string, unitName: Option<string>, kinds: seq<string>, i: int)
    requires ShortNames(kinds) && 0 < i < |kinds|
    requires DebhelperScriptSubst(fs, userScriptsDir, s, package, kinds[0], unitName).Ok?
    ensures var s1 := DebhelperScriptSubst(fs, userScriptsDir, s, package, kinds[0], unitName).value;
      ComposedScript(fs, userScriptsDir, s1, package, kinds[1..][i - 1], unitName)
        == ComposedScript(fs, userScriptsDir, s, package, kinds[i], unitName)
  {
    assert kinds[1..][i - 1] == kinds[i];
    SubstKeepsComposed(fs, userScriptsDir, s, package, unitName, kinds[0], kinds[i]);
  }

  /** Script `kinds[i]` is the first that fails to compose from table `s`, with error `e`. */
  predicate FailsFirstAt(fs: FileSystem, userScriptsDir: string, s: ScriptFragments, package: string,
                         unitName: Option<string>, kinds: seq<string>, i: int, e: Error)
  {
    && 0 <= i < |kinds|
    && ComposedScript(fs, userScriptsDir, s, package, kinds[i], unitName) == Err(e)
    && forall j :: 0 <= j < i ==> ComposedScript(fs, userScriptsDir, s, package, kinds[j], unitName).Ok?
  }

  /** A failed composition of a list of scripts fails with the error of the
      first script that fails to compose from the original table. */
  lemma {:induction false} ApplyScriptsFirstFailure(fs: FileSystem, userScriptsDir: string, s: ScriptFragments,
                                                    package: string, unitName: Option<string>, kinds: seq<string>)
    requires ShortNames(kinds)
    ensures var r := ApplyScripts(fs, userScriptsDir, s, package, unitName, kinds);
      r.Err? ==> exists i :: FailsFirstAt(fs, userScriptsDir, s, package, unitName, kinds, i, r.error)
    decreases |kinds|
  {
    var r := ApplyScripts(fs, userScriptsDir, s, package, unitName, kinds);
    if |kinds| > 0 && r.Err? {
      var step := DebhelperScriptSubst(fs, userScriptsDir, s, package, kinds[0], unitName);
      ApplyScriptsStep(fs, userScriptsDir, s, package, unitName, kinds);
      if step.Err? {
        assert FailsFirstAt(fs, userScriptsDir, s, package, unitName, kinds, 0, r.error);
      } else {
        FailureAfterStep(fs, userScriptsDir, s, package, unitName, kinds);
      }
    }
  }

  /** The inductive step of `ApplyScriptsFirstFailure`, when the first script composes. */
  lemma {:induction false} FailureAfterStep(fs: FileSystem, userScriptsDir: string, s: ScriptFragments,
                                            package: string, unitName: Option<string>, kinds: seq<string>)
    requires ShortNames(kinds) && |kinds| > 0
    requires DebhelperScriptSubst(fs, userScriptsDir, s, package, kinds[0], unitName).Ok?
    requires ApplyScripts(fs, userScriptsDir, s, package, unitName, kinds).Err?
    ensures var r := ApplyScripts(fs, userScriptsDir, s, package, unitName, kinds);
      exists i :: FailsFirstAt(fs, userScriptsDir, s, package, unitName, kinds, i, r.error)
    decreases |kinds|, 0
  {
    var r := ApplyScripts(fs, userScriptsDir, s, package, unitName, kinds);
    var s1 := DebhelperScriptSubst(fs, userScriptsDir, s, package, kinds[0], unitName).value;
    var rest := kinds[1..];
    ApplyScriptsStep(fs, userScriptsDir, s, package, unitName, kinds);
    assert ShortNames(rest);
    ApplyScriptsFirstFailure(fs, userScriptsDir, s1, package, unitName, rest);
    var i :| FailsFirstAt(fs, userScriptsDir, s1, package, unitName, rest, i, r.error);
    ComposedAfterStep(fs, userScriptsDir, s, package, unitName, kinds, i + 1);
    forall j | 0 < j < i + 1
      ensures ComposedScript(fs, userScriptsDir, s, package, kinds[j], unitName).Ok?
    {
      ComposedAfterStep(fs, userScriptsDir, s, package, unitName, kinds, j);
    }
    assert FailsFirstAt(fs, userScriptsDir, s, package, unitName, kinds, i + 1, r.error);
  }

  /** A successful composition of a list of distinct scripts stores each one as
      composed from the original table and leaves every other entry alone. */
  lemma {:induction false} ApplyScriptsResult(fs: FileSystem, userScriptsDir: string, s: ScriptFragments,
                                              package: string, unitName: Option<string>, kinds: seq<string>)
    requires ShortNames(kinds) && Distinct(kinds)
    ensures var r := ApplyScripts(fs, userScriptsDir, s, package, unitName, kinds);
      r.Ok? ==> forall k :: k !in kinds ==> SameEntry(s, r.value, k)
    ensures var r := ApplyScripts(fs, userScriptsDir, s, package, unitName, kinds);
      r.Ok? ==> forall i :: 0 <= i < |kinds| ==> HoldsComposed(fs, userScriptsDir, s, package, unitName, kinds[i], r.value)
    decreases |kinds|
  {
    var r := ApplyScripts(fs, userScriptsDir, s, package, unitName, kinds);
    if |kinds| > 0 && r.Ok? {
      var k := kinds[0];
      var rest := kinds[1..];
      var step := DebhelperScriptSubst(fs, userScriptsDir, s, package, k, unitName);
      ApplyScriptsStep(fs, userScriptsDir, s, package, unitName, kinds);
      var s1 := step.value;
      assert ShortNames(rest) && Distinct(rest);
      ApplyScriptsResult(fs, userScriptsDir, s1, package, unitName, rest);
      assert HoldsComposed(fs, userScriptsDir, s, package, unitName, k, s1);
      forall i | 0 <= i < |kinds|
        ensures HoldsComposed(fs, userScriptsDir, s, package, unitName, kinds[i], r.value)
      {
        if i == 0 {
          assert k !in rest;
          assert SameEntry(s1, r.value, k);
        } else {
          assert kinds[i] == rest[i - 1];
          SubstKeepsComposed(fs, userScriptsDir, s, package, unitName, k, kinds[i]);
          assert HoldsComposed(fs, userScriptsDir, s1, package, unitName, rest[i - 1], r.value);
          assert SameEntry(s, s1, kinds[i]);
        }
      }
      forall key | key !in kinds
        ensures SameEntry(s, r.value, key)
      {
        assert key !in rest;
        assert SameEntry(s1, r.value, key);
      }
    }
  }

  /** `apply`: the four maintainer scripts are each composed as if alone from the
      fragments given; the first failure in postinst, preinst, prerm, postrm
      order is the result; everything else in the table is kept. */
  lemma ApplyComposesEachScript(fs: FileSystem, userScriptsDir: string, scripts: ScriptFragments,
                                package: string, unitName: Option<string>)
    ensures Apply(fs, userScriptsDir, scripts, package, unitName).Ok? <==>
      forall i :: 0 <= i < 4 ==>
        ComposedScript(fs, userScriptsDir, scripts, package, MaintainerScripts[i], unitName).Ok?
    ensures var r := Apply(fs, userScriptsDir, scripts, package, unitName);
      r.Err? ==> exists i :: FailsFirstAt(fs, userScriptsDir, scripts, package, unitName, MaintainerScripts, i, r.error)
    ensures var r := Apply(fs, userScriptsDir, scripts, package, unitName);
      r.Ok? ==> forall k :: k !in MaintainerScripts ==> SameEntry(scripts, r.value, k)
    ensures var r := Apply(fs, userScriptsDir, scripts, package, unitName);
      r.Ok? ==> forall i :: 0 <= i < 4 ==>
        HoldsComposed(fs, userScriptsDir, scripts, package, unitName, MaintainerScripts[i], r.value)
  {
    MaintainerScriptNames();
    ApplyScriptsOk(fs, userScriptsDir, scripts, package, unitName, MaintainerScripts);
    ApplyScriptsFirstFailure(fs, userScriptsDir, scripts, package, unitName, MaintainerScripts);
    ApplyScriptsResult(fs, userScriptsDir, scripts, package, unitName, MaintainerScripts);
  }

  /** When no script composes to anything, composing them all leaves the table as it is. */
  lemma {:induction false} ApplyScriptsNothing(fs: FileSystem, userScriptsDir: string, s: ScriptFragments,
                                               package: string, unitName: Option<string>, kinds: seq<string>)
    requires forall i :: 0 <= i < |kinds| ==> ComposedScript(fs, userScriptsDir, s, package, kinds[i], unitName) == Ok(None)
    ensures ApplyScripts(fs, userScriptsDir, s, package, unitName, kinds) == Ok(s)
    decreases |kinds|
  {
    if |kinds| > 0 {
      ApplyScriptsStep(fs, userScriptsDir, s, package, unitName, kinds);
      assert DebhelperScriptSubst(fs, userScriptsDir, s, package, kinds[0], unitName) == Ok(s);
      assert forall i :: 0 <= i < |kinds[1..]| ==> kinds[1..][i] == kinds[i + 1];
      ApplyScriptsNothing(fs, userScriptsDir, s, package, unitName, kinds[1..]);
    }
  }

  /** The maintainer script names are short and start with a letter. */
  lemma MaintainerScriptNames()
    ensures ShortNames(MaintainerScripts) && Distinct(MaintainerScripts)
    ensures forall i :: 0 <= i < 4 ==> |MaintainerScripts[i]| > 0 && MaintainerScripts[i][0] != '/'
  {
  }

  /** apply_with_no_matching_files */
  lemma ApplyNoMatchingFiles()
    ensures Apply(map[], "", map[], "mypkg", None) == Ok(map[])
  {
    MaintainerScriptNames();
    forall i | 0 <= i < |MaintainerScripts|
      ensures ComposedScript(map[], "", map[], "mypkg", MaintainerScripts[i], None) == Ok(None)
    {
      FindsNoUserScript(map[], MaintainerScripts[i]);
    }
    ApplyScriptsNothing(map[], "", map[], "mypkg", None, MaintainerScripts);
  }

  /** A user script holding `valid_user_file`, and no fragments, composes to the
      user text with the marker removed. */
  lemma ValidUserScriptComposes(fs: FileSystem, script: string)
    requires script in fs && fs[script] == "some #DEBHELPER# content" && !IsPathFile(fs, "mypkg." + script)
    ensures ComposedScript(fs, "", map[], "mypkg", script, None) == Ok(Some("some  content"))
  {
    FindsBareUserScript(fs, script);
    ValidUserText();
    assert Existing(map[], FragmentKey("mypkg", script)) == "";
  }

  /** `set_test_fs_path_content` of `valid_user_file` for every maintainer script. */
  function ValidUserFs(): FileSystem {
    var text := "some #DEBHELPER# content";
    SetTestFsPathContent(SetTestFsPathContent(SetTestFsPathContent(SetTestFsPathContent(map[],
      "postinst", text), "preinst", text), "prerm", text), "postrm", text)
  }

  lemma ValidUserFsContents()
    ensures ValidUserFs().Keys == {"postinst", "preinst", "prerm", "postrm"}
    ensures forall i :: 0 <= i < 4 ==>
      MaintainerScripts[i] in ValidUserFs() && ValidUserFs()[MaintainerScripts[i]] == "some #DEBHELPER# content"
  {
  }

  lemma ValidUserFsNoPackageScripts()
    ensures forall i :: 0 <= i < 4 ==> !IsPathFile(ValidUserFs(), "mypkg." + MaintainerScripts[i])
  {
    ValidUserFsContents();
    forall i | 0 <= i < 4
      ensures !IsPathFile(ValidUserFs(), "mypkg." + MaintainerScripts[i])
    {
      assert |"mypkg." + MaintainerScripts[i]| > 8;
    }
  }

  /** apply_with_valid_user_files */
  lemma ApplyValidUserFiles()
    ensures var r := Apply(ValidUserFs(), "", map[], "mypkg", None);
      r.Ok? && forall i :: 0 <= i < 4 ==> MaintainerScripts[i] in r.value && r.value[MaintainerScripts[i]] == "some  content"
  {
    var fs := ValidUserFs();
    MaintainerScriptNames();
    ValidUserFsContents();
    ValidUserFsNoPackageScripts();
    forall i | 0 <= i < 4
      ensures ComposedScript(fs, "", map[], "mypkg", MaintainerScripts[i], None) == Ok(Some("some  content"))
    {
      ValidUserScriptComposes(fs, MaintainerScripts[i]);
    }
    ApplyComposesEachScript(fs, "", map[], "mypkg", None);
  }
}
