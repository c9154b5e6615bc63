# cargo-deb debhelper core, modelled in Dafny

cargo-deb builds Debian packages from Rust crates. When it installs systemd
units it reimplements a small part of Debian's debhelper library
(`src/dh_lib.rs`):

- `pkgfile` finds the most specific user-supplied file for a package, file
  name and optional unit name.
- `autoscript` renders an embedded shell "autoscript" template. It replaces
  every `#KEY#` placeholder and wraps the result between two banner lines.
  The block goes into an entry `<package>.<script>.debhelper` of an in-memory
  fragment table. For `prerm` and `postrm` it goes before text that is already
  there; otherwise it goes after.
- `debhelper_script_subst` and `apply` turn the fragments into the final
  maintainer scripts `postinst`, `preinst`, `prerm` and `postrm`:
  - if the user supplied a script, the fragments are spliced in at every
    `#DEBHELPER#` marker, and a script without a marker is an error;
  - otherwise the fragments get a `#!/bin/sh` / `set -e` header.

From `src/util.rs` the model takes the filesystem semantics the engine
depends on: `is_path_file`, `read_file_to_string`, `add_test_fs_paths` and
`set_test_fs_path_content`. It also takes `MyJoin::join` on `BTreeSet<String>`.

Modules:

- `Errors` holds the error values and `Result`/`Option`.
- `Strings` models Rust's `str::replace` as leftmost, non-overlapping
  replacement of every occurrence, and `str::lines().count()`.
- `Util` models the filesystem as a map from path to text, plus the string
  order and the ordered-set join.
- `DhLib` holds the four operations.
- `DhLibProperties` holds the properties that relate several calls, and the
  unit tests of `src/dh_lib.rs` as lemmas.

The model returns errors where the code panics:
- an unknown template name (`expect`) becomes `UnknownTemplate`;
- an empty replacement map (`unimplemented!()`) becomes `SedModeUnsupported`.

The model returns the updated fragment table where the code mutates it. On an
error it returns only the error (see "## Left out").

Other modelling choices:

- The `HashMap` of replacements is a sequence of pairs with distinct keys, in
  whatever order its iterator yields them.
- `Path::join` follows Unix rules:
  - an absolute name replaces the directory;
  - otherwise a `/` is inserted, unless the directory is empty or already
    ends in one.
- The binary name (`current_exe`) and the embedded template store are
  parameters.

The doc comment of `pkgfile` (`src/dh_lib.rs:43-49`) lists `<package>.<filename>`
before `<unit_name>.<filename>`. The code (`src/dh_lib.rs:84-95`) tries the
unit-only file first, for the main package. The model follows the code, and
`DhLibProperties.UnitFileBeatsPackageFile` states the resulting order.

## Model

| member | source | states |
|---|---|---|
| Util.IsPathFile | src/util.rs:143-147 | a path is a file exactly when reading it succeeds, and then the read yields the stored text |
| Util.ReadFileToString | src/util.rs:149-157 | reading succeeds exactly for paths the filesystem holds, yields the stored text, and fails with NotFound for any other path |
| Util.AddTestFsPaths | src/util.rs:120-127 | afterwards the files are the old ones plus the listed paths; listed paths hold empty text; every other file keeps its text |
| Util.SetTestFsPathContent | src/util.rs:129-134 | the path becomes a file holding the given text; every other path keeps its file status and text |
| Util.ReadAfterSet | src/util.rs:129-157 | a read after setting a path returns the written text; reads of other paths are unaffected |
| Util.ReadAfterAdd | src/util.rs:120-157 | a read of an added path returns empty text; reads of other paths are unaffected |
| Util.StrLessIrreflexive | src/util.rs:76-80 | no string sorts before itself in the `BTreeSet<String>` order |
| Util.StrLessAsymmetric | src/util.rs:76-80 | the string order is asymmetric |
| Util.StrLessTransitive | src/util.rs:76-80 | the string order is transitive |
| Util.StrLessTotal | src/util.rs:76-80 | any two distinct strings are ordered one way or the other |
| Util.Least | src/util.rs:76-80 | the first element a non-empty set iterates over sorts before every other member |
| Util.SortedElements | src/util.rs:76-80 | the iteration order lists exactly the members of the set, strictly ascending, each once |
| Util.AscendingEnumerationUnique | src/util.rs:76-80 | a set has only one strictly ascending enumeration, so the iteration order is determined by the set |
| Util.JoinSnoc | src/util.rs:78 | joining one more item adds the separator and the item at the end |
| Util.JoinSet | src/util.rs:76-80 | the empty set joins to the empty string; a singleton joins to its element |
| Util.JoinSetAscending | src/util.rs:76-80 | the join of a set equals the join of any ascending enumeration of it |
| Util.JoinSetLeastFirst | src/util.rs:76-80 | a set of two or more joins to its least member, the separator, then the join of the rest |
| Util.JoinSetSingleton | src/util.rs:76-80 | a singleton joins to its element whatever the separator |
| Util.JoinSetPair | src/util.rs:76-80 | two members join smaller first with one separator between them |
| Util.JoinExamples | src/util.rs:205-218 | `{}`, `{"a"}` and `{"a","b"}` join to `""`, `"a"`, and `"ab"` or `"a,b"`, as the join test expects |
| Strings.ReplaceAll | src/dh_lib.rs:209 | `str::replace`, leftmost and non-overlapping: text too short to hold the pattern comes back unchanged; an equally long replacement keeps the length |
| Strings.ContainsStep | src/dh_lib.rs:250 | an occurrence in a non-empty text starts at its head or lies in its tail |
| Strings.ReplaceAllNoMatch | src/dh_lib.rs:250 | replacing a pattern that does not occur leaves the text unchanged |
| Strings.ReplaceAllBySelf | src/dh_lib.rs:250 | replacing a pattern by itself leaves the text unchanged |
| Strings.ReplaceAllLength | src/dh_lib.rs:209 | replacement keeps the length for an equally long replacement; otherwise it moves the length strictly toward the replacement's whenever the pattern occurs |
| Strings.ReplaceAllSameLengthChanges | src/dh_lib.rs:250 | an equally long but different replacement changes every text that holds the pattern |
| Strings.ReplaceAllUnchanged | src/dh_lib.rs:250-253 | `str::replace` returns its input exactly when the pattern is absent or the replacement equals the pattern |
| Strings.ReplaceAllKeepsPrefix | src/dh_lib.rs:250 | text in which no occurrence of the pattern starts is copied unchanged, even if it holds the pattern's characters |
| Strings.NoStartNoOccurrence | src/dh_lib.rs:250 | text lacking the pattern's first character has no occurrence starting in it |
| Strings.NoStartNotContains | src/dh_lib.rs:250-253 | text lacking the pattern's first character does not contain the pattern |
| Strings.ReplaceAllAtHead | src/dh_lib.rs:250 | a pattern at the head of the text is replaced, and the rest is processed after it |
| Strings.ReplaceAllNoStart | src/dh_lib.rs:209 | text without the pattern's first character comes back unchanged |
| Strings.ReplaceAllKeepsLastChar | src/dh_lib.rs:209 | a final character the pattern does not end with survives replacement |
| Strings.ReplaceAllKeepsCount | src/dh_lib.rs:209 | a character in neither pattern nor replacement occurs as often after replacement as before |
| Strings.LineCountAppend | src/dh_lib.rs:480-483 | after an empty or newline-terminated text, the lines of the second part add to the first part's newlines |
| Strings.LineCountConcat | src/dh_lib.rs:511-514 | two newline-terminated texts together have the sum of their lines |
| DhLib.FirstFileIndex | src/dh_lib.rs:97-101 | the index is that of the first existing path; no earlier path exists; it is the list length if none exists |
| DhLib.Candidates | src/dh_lib.rs:84-95 | the package+unit name is tried first when there is a unit, the bare name (main package) or the package name last; the package name is always tried; a non-main package tries only package-qualified names |
| DhLib.PkgFile | src/dh_lib.rs:67-104 | None exactly when no candidate is a file; otherwise the first existing candidate in the code's order; for a non-main package only package-qualified names |
| DhLibProperties.PkgFilePrecedence | src/dh_lib.rs:84-101 | pkgfile equals the nested-if reference: package+unit, then unit (main package only), then package, then bare name (main package only), else None |
| DhLibProperties.UnitFileBeatsPackageFile | src/dh_lib.rs:84-95 | for the main package, the unit-only file is chosen over the package file when the package+unit file is missing |
| DhLibProperties.FindsPackageUnitFile | src/dh_lib.rs:84-86 | for the tests' directory, package and file names, a present package+unit file is returned |
| DhLibProperties.FindsPackageFile | src/dh_lib.rs:92 | for the tests' names, without a unit, a present package file is returned |
| DhLibProperties.FindsPackageFileForUnit | src/dh_lib.rs:84-92 | for the tests' names, with both unit-specific files absent, the package file is returned |
| DhLibProperties.FindsPackageFileForWrongUnit | src/dh_lib.rs:84-92 | for the tests' names, the unit `wrongunit`, which has no files, falls back to the package file |
| DhLibProperties.FindsUnitFile | src/dh_lib.rs:84-89 | for the tests' names, with the package+unit file absent, a present unit-only file is returned |
| DhLibProperties.FindsBareFile | src/dh_lib.rs:92-95 | for the tests' directory and file name and any package, with the package file absent the bare file name is returned |
| DhLibProperties.FindsNothing | src/dh_lib.rs:97-103 | for the tests' wrong file name and wrong directory, with no candidate present, None is returned |
| DhLibProperties.PkgFileWithPackageUnitFile | src/dh_lib.rs:311-327 | the expectations of the package+unit test |
| DhLibProperties.PkgFileWithoutUnitFile | src/dh_lib.rs:329-341 | the expectations of the test without a unit file |
| DhLibProperties.PkgFileWithoutPackageFile | src/dh_lib.rs:343-355 | the expectations of the test without a package file |
| DhLibProperties.PkgFileFallback | src/dh_lib.rs:357-373 | the expectations of the fallback test |
| DhLibProperties.PkgFileNoMatch | src/dh_lib.rs:375-391 | the expectations of the no-match test |
| DhLib.NormalizeNewline | src/dh_lib.rs:118-121 | the result ends in a newline; it is the input or the input plus one newline; a terminated input is kept; a non-empty input keeps its line count |
| DhLibProperties.NormalizeNewlineIdempotent | src/dh_lib.rs:118-121 | normalising twice is normalising once |
| DhLib.GetEmbeddedAutoscript | src/dh_lib.rs:106-125 | fails with UnknownTemplate exactly for names the store lacks; otherwise a newline-terminated template comes back as it is and any other gets one newline appended |
| DhLib.Substitute | src/dh_lib.rs:208-210 | keeps a final newline; keeps the number of newlines for single-line pairs; leaves `#`-free text alone; a single pair is one `str::replace` of its token |
| DhLib.TokenReplacement | src/dh_lib.rs:209 | one token replacement keeps a final newline, keeps the newline count for single-line pairs, and leaves `#`-free text alone |
| DhLib.AutoscriptSed | src/dh_lib.rs:205-213 | fails exactly for unknown templates; the result ends in a newline; one pair replaces its token in the normalised template; single-line pairs keep the template's newline count |
| DhLib.BannerOpenLine | src/dh_lib.rs:170 | the opening banner is one newline-terminated line |
| DhLib.BannerCloseLine | src/dh_lib.rs:172 | the closing banner is one newline-terminated line |
| DhLib.BlockFraming | src/dh_lib.rs:169-172 | a block starts with the banner naming the binary and ends with the end banner |
| DhLib.BlockLineCount | src/dh_lib.rs:169-172 | a block has the rendered text's lines plus two, and ends in a newline |
| DhLib.RenderedLineCount | src/dh_lib.rs:479-483 | a rendered template has as many lines as the template `get_embedded_autoscript` returns, for single-line pairs |
| DhLib.Autoscript | src/dh_lib.rs:149-192 | an empty map fails with SedModeUnsupported; otherwise it fails exactly for unknown templates; the table gains only the fragment key, other entries keep their text; the block is prepended to an existing prerm/postrm entry and appended otherwise |
| DhLibProperties.AutoscriptEntry | src/dh_lib.rs:164-185 | one successful call leaves the block before the entry's old text for prerm/postrm and after it (or alone) otherwise, and adds only the fragment key |
| DhLibProperties.AutoscriptTwice | src/dh_lib.rs:164-185 | two accumulations leave the second block first for prerm/postrm and last otherwise, with the key set unchanged |
| DhLibProperties.TemplateBlockLineCount | src/dh_lib.rs:474-483 | a block has two lines more than the template `get_embedded_autoscript` returns, and ends in a newline |
| DhLibProperties.AutoscriptIntoEmpty | src/dh_lib.rs:179-185 | into an empty table the entry is the block alone, under the one fragment key |
| DhLibProperties.AutoscriptLineCounts | src/dh_lib.rs:457-514 | one call yields one entry with the lines of `get_embedded_autoscript`'s text + 2; a second call keeps one entry and doubles that count |
| DhLibProperties.AutoscriptTwiceFraming | src/dh_lib.rs:485-488 | after two calls the entry still starts with the opening banner and ends with the end banner |
| DhLibProperties.AutoscriptFailureExamples | src/dh_lib.rs:404-421 | an unknown template fails by name; an empty map fails as unsupported sed mode |
| DhLib.ComposedScript | src/dh_lib.rs:233-268 | with a user script it fails exactly when the text lacks the marker or the fragments equal the marker, and otherwise splices the fragments in at every marker; without one, the fragments behind the shebang header, or nothing |
| DhLib.DebhelperScriptSubst | src/dh_lib.rs:233-268 | stores the composed script under the script's name, or leaves the table as it is; fails with its error; other entries are unchanged |
| DhLibProperties.SpliceAtMarker | src/dh_lib.rs:250 | user text before the first marker is kept byte for byte, whatever it holds (a `#!` line, comments), and that marker becomes the fragments |
| DhLibProperties.SpliceBetween | src/dh_lib.rs:250-253 | a script holding exactly one marker contains it, and replacing it keeps the text before and after around the fragments |
| DhLibProperties.CommentLineNoMarker | src/dh_lib.rs:250 | a leading `#!` line, or any line whose only `#` is its first character and is not followed by `D`, holds no marker |
| DhLibProperties.ShebangUserText | src/dh_lib.rs:249-254 | in `#!/bin/sh`, marker, `exit 0`, the marker is found and replaced, and the shebang line and the rest are kept |
| DhLibProperties.FindsBareUserScript | src/dh_lib.rs:236 | the bare user script is used when no package-specific one exists |
| DhLibProperties.FindsNoUserScript | src/dh_lib.rs:236 | no user script is used when neither candidate exists |
| DhLibProperties.InvalidUserText | src/dh_lib.rs:541-542 | `invalid_user_file` holds no marker |
| DhLibProperties.ValidUserText | src/dh_lib.rs:544-545 | `valid_user_file` holds the marker, and replacing it with no fragments gives "some  content" |
| DhLibProperties.ScriptSubstNoMatchingFiles | src/dh_lib.rs:547-557 | with no files and no fragments the table stays empty |
| DhLibProperties.ScriptSubstLacksToken | src/dh_lib.rs:559-574 | a user script without the marker fails with DebHelperReplaceFailed |
| DhLibProperties.ScriptSubstUserFileOnly | src/dh_lib.rs:576-587 | a user script with the marker and no fragments is stored with the marker removed |
| DhLibProperties.GeneratedOnly | src/dh_lib.rs:255-264 | fragments without a user script are stored behind the shebang header, next to the fragment entry |
| DhLibProperties.ScriptSubstGeneratedFileOnly | src/dh_lib.rs:589-602 | the table ends with the fragment and the new script, the script being the header plus the fragment |
| DhLibProperties.ComposedScriptFrame | src/dh_lib.rs:236-265 | composing a script reads the table only at its own fragment entry |
| DhLibProperties.SubstKeepsComposed | src/dh_lib.rs:254-264 | storing a script under a short name does not change what composing any script produces |
| DhLib.ApplyScripts | src/dh_lib.rs:278-282 | the loop fails only with DebHelperReplaceFailed; on success every old key is kept, and a key not named in the loop keeps its presence and text |
| DhLibProperties.ApplyScriptsOk | src/dh_lib.rs:278-282 | the loop succeeds exactly when every script composes from the original table |
| DhLibProperties.ApplyScriptsFirstFailure | src/dh_lib.rs:278-282 | a failed loop fails with the error of the first script that fails to compose |
| DhLibProperties.ApplyScriptsResult | src/dh_lib.rs:278-282 | a successful loop stores each script as composed from the original table and keeps every other entry |
| DhLibProperties.ApplyScriptsNothing | src/dh_lib.rs:278-284 | when no script composes to anything the table is returned unchanged |
| DhLib.Apply | src/dh_lib.rs:275-285 | `apply` fails only with DebHelperReplaceFailed; on success the table gains at most postinst, preinst, prerm and postrm, and every other entry keeps its text |
| DhLibProperties.ApplyComposesEachScript | src/dh_lib.rs:275-285 | `apply` succeeds iff each of postinst, preinst, prerm, postrm composes alone; it fails with the first failure in that order; it stores each composed script and keeps everything else |
| DhLibProperties.ValidUserScriptComposes | src/dh_lib.rs:245-254 | a `valid_user_file` script with no fragments composes to the text with the marker removed |
| DhLibProperties.ApplyNoMatchingFiles | src/dh_lib.rs:604-609 | with no files and no fragments `apply` succeeds with an empty table |
| DhLibProperties.ApplyValidUserFiles | src/dh_lib.rs:611-624 | with `valid_user_file` for all four scripts `apply` succeeds and stores each with the marker removed |

## Left out

- Listener messages (`listener.info`) are left out. They are output only and do not affect the result.
- The embedded template files (`rust_embed`) are not modelled. The store is a map parameter, so `autoscript_check_embedded_files` and `autoscript_sanity_check_all_embedded_autoscripts` are not modelled. The `assert_ne!` checks that the real `postrm-systemd` template holds `#UNITFILES#` are not modelled either: they depend on the template text.
- The binary name from `std::env::current_exe` is a parameter.
- UTF-8 decoding of fragment bytes (`from_utf8` and its error) is left out. Fragments are text in the model.
- The thread-local, Mutex-wrapped test filesystem is modelled as a plain map value, and `with_test_fs` as map lookup.
- The real `Path::is_file` is not modelled: it also depends on directories, symlinks and permissions. The model is the test filesystem's key lookup.
- Windows path joining is not modelled.
- `fname_from_path` and the `map!` macro are not modelled: `pkgfile`, `autoscript`, `debhelper_script_subst` and `apply` do not use them.
- `str::replace` with an empty pattern is not modelled. The engine only uses the non-empty patterns `#KEY#` and `#DEBHELPER#`.
- DhLib.Substitute: its content is stated exactly only for a single placeholder, or for text without `#`. With several keys, `HashMap` iteration order is unspecified, so the model takes the pairs in an arbitrary given order.
- DhLibProperties.AutoscriptLineCounts: requires single-line placeholder values and binary name. A value containing a newline would add lines.
- DhLib.Apply: when a later script fails, the code has already stored the scripts composed before it into the caller's table, which it mutates in place. The model returns only the error and drops that partial update.
- DhLib.ApplyScripts: the same holds for the loop. On an error the scripts stored before the failing one are not returned.
- DhLibProperties.ApplyScriptsOk: requires script names of at most ten characters. This is what `apply`'s four names satisfy, and it keeps a script name from coinciding with a fragment key.
