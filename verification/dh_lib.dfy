/** The partial debhelper core of `src/dh_lib.rs`: finding the most specific
    user file for a package (`pkgfile`), accumulating rendered autoscript
    fragments per maintainer script (`autoscript`), and turning the fragments
    into final maintainer scripts (`debhelper_script_subst`, `apply`).

    The filesystem, the embedded template store and the name of the running
    binary are parameters; the fragment table is a value that each operation
    returns updated. */
module DhLib {
  import opened Errors
  import opened Strings
  import opened Util

  /** `ScriptFragments`: generated script text by file name. */
  type ScriptFragments = map<string, string>

  /** The embedded autoscript templates, by template file name. */
  type TemplateStore = map<string, string>

  /** No placeholder name is listed twice. */
  predicate DistinctKeys(reps: seq<(string, string)>) {
    forall i, j :: 0 <= i < j < |reps| ==> reps[i].0 != reps[j].0
  }

  /** The `HashMap<&str, String>` of placeholder names and values, in the
      (unspecified) order its iterator yields them. */
  type Replacements = reps: seq<(string, string)> | DistinctKeys(reps)

  // ---------------------------------------------------------------------------
  // pkgfile
  // ---------------------------------------------------------------------------

  /** `Path::join` on Unix: an absolute name replaces the directory; otherwise a
      separator is inserted unless the directory is empty or already ends in one. */
  function JoinPath(dir: string, name: string): string {
    if |name| > 0 && name[0] == '/' then name
    else if |dir| == 0 || dir[|dir| - 1] == '/' then dir + name
    else dir + "/" + name
  }

  /** The paths `pkgfile` tries, most specific first. */
  function Candidates(dir: string, mainPackage: string, package: string, filename: string,
                      unitName: Option<string>): (r: seq<string>)
    ensures |r| > 0
    ensures unitName.Some? ==> r[0] == JoinPath(dir, package + "." + unitName.value + "." + filename)
    ensures unitName.None? ==> r[0] == JoinPath(dir, package + "." + filename)
    ensures r[|r| - 1] == if mainPackage == package then JoinPath(dir, filename)
                          else JoinPath(dir, package + "." + filename)
    ensures JoinPath(dir, package + "." + filename) in r
    ensures mainPackage != package ==> forall c :: c in r ==>
      c == JoinPath(dir, package + "." + filename)
      || (unitName.Some? && c == JoinPath(dir, package + "." + unitName.value + "." + filename))
  {
    var isMainPackage := mainPackage == package;
    var named :=
      if unitName.Some? then
        var namedFilename := unitName.value + "." + filename;
        assert package + "." + namedFilename == package + "." + unitName.value + "." + filename;
        [JoinPath(dir, package + "." + namedFilename)]
          + (if isMainPackage then [JoinPath(dir, namedFilename)] else [])
      else [];
    named
      + [JoinPath(dir, package + "." + filename)]
      + (if isMainPackage then [JoinPath(dir, filename)] else [])
  }

  /** Index of the first path that is a file, or `|paths|` if there is none. */
  function FirstFileIndex(fs: FileSystem, paths: seq<string>): (i: nat)
    ensures i <= |paths|
    ensures forall j :: 0 <= j < i ==> !IsPathFile(fs, paths[j])
    ensures i < |paths| ==> IsPathFile(fs, paths[i])
    decreases |paths|
  {
    if |paths| == 0 then 0
    else if IsPathFile(fs, paths[0]) then 0
    else 1 + FirstFileIndex(fs, paths[1..])
  }

  /** `pkgfile`: the first candidate that is a file, or None. */
  function PkgFile(fs: FileSystem, dir: string, mainPackage: string, package: string,
                   filename: string, unitName: Option<string>): (r: Option<string>)
    ensures r.None? <==>
      forall c :: c in Candidates(dir, mainPackage, package, filename, unitName) ==> !IsPathFile(fs, c)
    ensures r.Some? ==>
      r.value in Candidates(dir, mainPackage, package, filename, unitName) && IsPathFile(fs, r.value)
    ensures var paths := Candidates(dir, mainPackage, package, filename, unitName);
      forall i :: (0 <= i < |paths| && IsPathFile(fs, paths[i])
                   && (forall j :: 0 <= j < i ==> !IsPathFile(fs, paths[j])))
        ==> r == Some(paths[i])
    ensures r.Some? && mainPackage != package ==>
      r.value == JoinPath(dir, package + "." + filename)
      || (unitName.Some? && r.value == JoinPath(dir, package + "." + unitName.value + "." + filename))
  {
    var paths := Candidates(dir, mainPackage, package, filename, unitName);
    var i := FirstFileIndex(fs, paths);
    if i < |paths| then Some(paths[i]) else None
  }

  // ---------------------------------------------------------------------------
  // autoscript
  // ---------------------------------------------------------------------------

  /** Name of the intermediate fragment file for one package's maintainer script. */
  function FragmentKey(package: string, script: string): string {
    package + "." + script + ".debhelper"
  }

  /** Maintainer scripts whose fragments run newest first. */
  predicate IsRemovalScript(script: string) {
    script == "postrm" || script == "prerm"
  }

  /** Text accumulated so far under `key`, empty if none. */
  function Existing(scripts: ScriptFragments, key: string): string {
    if key in scripts then scripts[key] else ""
  }

  /** The newline normalisation of `get_embedded_autoscript`. */
  function NormalizeNewline(s: string): (r: string)
    ensures EndsWithChar(r, '\n')
    ensures r == s || r == s + "\n"
    ensures EndsWithChar(s, '\n') ==> r == s
    ensures s != "" ==> LineCount(r) == LineCount(s)
  {
    if EndsWithChar(s, '\n') then s else s + "\n"
  }

  /** `get_embedded_autoscript`: the named template, newline-terminated. */
  function GetEmbeddedAutoscript(store: TemplateStore, name: string): (r: Result<string>)
    ensures r.Err? <==> name !in store
    ensures r.Err? ==> r.error == UnknownTemplate(name)
    ensures r.Ok? ==> EndsWithChar(r.value, '\n') && StartsWith(r.value, store[name])
    ensures r.Ok? ==> |r.value| <= |store[name]| + 1
    ensures r.Ok? && EndsWithChar(store[name], '\n') ==> r.value == store[name]
    ensures r.Ok? && !EndsWithChar(store[name], '\n') ==> r.value == store[name] + "\n"
  {
    if name in store then Ok(NormalizeNewline(store[name])) else Err(UnknownTemplate(name))
  }

  /** The placeholder token `#<key>#`. */
  function Token(key: string): string {
    "#" + key + "#"
  }

  /** No placeholder name or value holds a newline. */
  predicate SingleLine(reps: seq<(string, string)>) {
    forall i :: 0 <= i < |reps| ==> '\n' !in reps[i].0 && '\n' !in reps[i].1
  }

  /** Replace every token of each pair in turn, in iteration order. */
  function Substitute(text: string, reps: seq<(string, string)>): (r: string)
    ensures EndsWithChar(text, '\n') ==> EndsWithChar(r, '\n')
    ensures SingleLine(reps) ==> multiset(r)['\n'] == multiset(text)['\n']
    ensures '#' !in text ==> r == text
    ensures |reps| == 1 ==> r == ReplaceAll(text, Token(reps[0].0), reps[0].1)
    decreases |reps|
  {
    if |reps| == 0 then text
    else
      var token := Token(reps[0].0);
      var once := ReplaceAll(text, token, reps[0].1);
      TokenReplacement(text, reps[0].0, reps[0].1);
      assert SingleLine(reps) ==> SingleLine(reps[1..]);
      Substitute(once, reps[1..])
  }

  /** Replacing one placeholder token keeps a final newline, keeps the number of
      newlines when name and value are single-line, and leaves text without any
      '#' alone. */
  lemma TokenReplacement(text: string, key: string, value: string)
    ensures EndsWithChar(text, '\n') ==> EndsWithChar(ReplaceAll(text, Token(key), value), '\n')
    ensures '\n' !in key && '\n' !in value ==>
      multiset(ReplaceAll(text, Token(key), value))['\n'] == multiset(text)['\n']
    ensures '#' !in text ==> ReplaceAll(text, Token(key), value) == text
  {
    var token := Token(key);
    if EndsWithChar(text, '\n') {
      ReplaceAllKeepsLastChar(text, token, value, '\n');
    }
    if '\n' !in key && '\n' !in value {
      ReplaceAllKeepsCount(text, token, value, '\n');
    }
    if '#' !in text {
      ReplaceAllNoStart(text, token, value);
    }
  }

  /** `autoscript_sed`: the named template with every placeholder token replaced. */
  function AutoscriptSed(store: TemplateStore, name: string, replacements: Replacements): (r: Result<string>)
    ensures r.Err? <==> name !in store
    ensures r.Err? ==> r.error == UnknownTemplate(name)
    ensures r.Ok? ==> EndsWithChar(r.value, '\n')
    ensures r.Ok? && |replacements| == 1 ==>
      r.value == ReplaceAll(NormalizeNewline(store[name]), Token(replacements[0].0), replacements[0].1)
    ensures r.Ok? && SingleLine(replacements) ==>
      multiset(r.value)['\n'] == multiset(NormalizeNewline(store[name]))['\n']
  {
    var snippet :- GetEmbeddedAutoscript(store, name);
    Ok(Substitute(snippet, replacements))
  }

  /** Text of the first line of every generated block, before the binary name. */
  const BannerLead: string := "# Automatically added by "

  /** Text of the last line of every generated block. */
  const BannerEnd: string := "# End automatically added section"

  /** First line of every generated block. */
  function BannerOpen(binName: string): string {
    BannerLead + binName + "\n"
  }

  /** Last line of every generated block. */
  const BannerClose: string := BannerEnd + "\n"

  /** A rendered template between its two banner lines. */
  function Block(binName: string, rendered: string): string {
    BannerOpen(binName) + rendered + BannerClose
  }

  lemma BannerTextsSingleLine()
    ensures '\n' !in BannerLead && '\n' !in BannerEnd
  {
  }

  /** The opening banner is one terminated line when the binary name has no newline. */
  lemma BannerOpenLine(binName: string)
    requires '\n' !in binName
    ensures EndsWithChar(BannerOpen(binName), '\n') && multiset(BannerOpen(binName))['\n'] == 1
  {
    BannerTextsSingleLine();
    assert '\n' !in BannerLead + binName;
    TerminatedLine(BannerLead + binName);
  }

  /** The closing banner is one terminated line. */
  lemma BannerCloseLine()
    ensures EndsWithChar(BannerClose, '\n') && multiset(BannerClose)['\n'] == 1
  {
    BannerTextsSingleLine();
    TerminatedLine(BannerEnd);
  }

  /** A block opens with the banner naming the binary and closes with the end banner. */
  lemma BlockFraming(binName: string, rendered: string)
    ensures StartsWith(Block(binName, rendered), BannerLead + binName + "\n")
    ensures EndsWith(Block(binName, rendered), BannerClose)
  {
    var block := Block(binName, rendered);
    assert block == (BannerLead + binName + "\n") + (rendered + BannerClose);
    ConcatKeepsEnds(BannerLead + binName + "\n", rendered + BannerClose, BannerLead + binName + "\n", BannerClose);
    ConcatKeepsEnds(rendered, BannerClose, BannerClose, BannerClose);
    assert StartsWith(BannerLead + binName + "\n", BannerLead + binName + "\n");
  }

  /** A block adds its two banner lines to the lines of the rendered text,
      when the binary name does not span lines. */
  lemma BlockLineCount(binName: string, rendered: string)
    requires '\n' !in binName && EndsWithChar(rendered, '\n')
    ensures LineCount(Block(binName, rendered)) == LineCount(rendered) + 2
    ensures EndsWithChar(Block(binName, rendered), '\n')
  {
    var open := BannerOpen(binName);
    BannerOpenLine(binName);
    BannerCloseLine();
    assert Block(binName, rendered) == (open + rendered) + BannerClose;
    assert EndsWithChar(open + rendered, '\n') by {
      assert (open + rendered)[|open + rendered| - 1] == rendered[|rendered| - 1];
    }
    LineCountAppend(open + rendered, BannerClose);
    assert multiset(open + rendered) == multiset(open) + multiset(rendered);
    var block := Block(binName, rendered);
    assert block[|block| - 1] == BannerClose[|BannerClose| - 1];
  }

  /** A rendered template has as many lines as the newline-terminated template
      when no placeholder name or value spans lines. */
  lemma RenderedLineCount(store: TemplateStore, name: string, reps: Replacements)
    requires name in store && SingleLine(reps)
    ensures LineCount(AutoscriptSed(store, name, reps).value)
      == LineCount(GetEmbeddedAutoscript(store, name).value)
  {
    var r := AutoscriptSed(store, name, reps).value;
    var n := GetEmbeddedAutoscript(store, name).value;
    assert n == NormalizeNewline(store[name]);
    assert LineCount(r) == multiset(r)['\n'];
    assert LineCount(n) == multiset(n)['\n'];
  }

  /** `autoscript`: render the template and merge the block into the table entry
      `<package>.<script>.debhelper`, before the existing text for a removal
      script that already has an entry, after it otherwise. */
  function Autoscript(scripts: ScriptFragments, binName: string, package: string, script: string,
                      snippetFilename: string, replacements: Replacements, store: TemplateStore)
    : (r: Result<ScriptFragments>)
    ensures |replacements| == 0 ==> r == Err(SedModeUnsupported)
    ensures |replacements| > 0 ==> (r.Err? <==> snippetFilename !in store)
    ensures |replacements| > 0 && r.Err? ==> r.error == UnknownTemplate(snippetFilename)
    ensures r.Ok? ==> r.value.Keys == scripts.Keys + {FragmentKey(package, script)}
    ensures r.Ok? ==> forall k :: k in scripts && k != FragmentKey(package, script) ==> r.value[k] == scripts[k]
    ensures r.Ok? ==> var block := Block(binName, AutoscriptSed(store, snippetFilename, replacements).value);
      |r.value[FragmentKey(package, script)]| == |Existing(scripts, FragmentKey(package, script))| + |block|
    ensures r.Ok? && FragmentKey(package, script) in scripts && IsRemovalScript(script) ==>
      r.value[FragmentKey(package, script)]
        == Block(binName, AutoscriptSed(store, snippetFilename, replacements).value)
           + scripts[FragmentKey(package, script)]
    ensures r.Ok? && !(FragmentKey(package, script) in scripts && IsRemovalScript(script)) ==>
      r.value[FragmentKey(package, script)]
        == Existing(scripts, FragmentKey(package, script))
           + Block(binName, AutoscriptSed(store, snippetFilename, replacements).value)
  {
    var outfile := FragmentKey(package, script);
    if outfile in scripts && IsRemovalScript(script) then
      if |replacements| > 0 then
        var rendered :- AutoscriptSed(store, snippetFilename, replacements);
        Ok(scripts[outfile := Block(binName, rendered) + scripts[outfile]])
      else
        Err(SedModeUnsupported)
    else if |replacements| > 0 then
      var rendered :- AutoscriptSed(store, snippetFilename, replacements);
      Ok(scripts[outfile := Existing(scripts, outfile) + Block(binName, rendered)])
    else
      Err(SedModeUnsupported)
  }

  // ---------------------------------------------------------------------------
  // debhelper_script_subst and apply
  // ---------------------------------------------------------------------------

  /** The insertion point for generated text in a user-supplied script. */
  const Marker: string := "#DEBHELPER#"

  /** Header that turns accumulated fragments into a complete shell script. */
  const Shebang: string := "#!/bin/sh\nset -e\n"

  /** The maintainer scripts `apply` composes, in the order it composes them. */
  const MaintainerScripts: seq<string> := ["postinst", "preinst", "prerm", "postrm"]

  /** The user's own version of `script`, looked up with the package as main package. */
  function UserScript(fs: FileSystem, userScriptsDir: string, package: string, script: string,
                      unitName: Option<string>): Option<string>
  {
    PkgFile(fs, userScriptsDir, package, package, script, unitName)
  }

  /** The text `debhelper_script_subst` stores under `script`, or None when it
      stores nothing: the user script with the fragments spliced in at every
      marker, else the fragments behind a shebang header. */
  function ComposedScript(fs: FileSystem, userScriptsDir: string, scripts: ScriptFragments,
                          package: string, script: string, unitName: Option<string>)
    : (r: Result<Option<string>>)
    ensures r.Err? ==> UserScript(fs, userScriptsDir, package, script, unitName).Some?
    ensures UserScript(fs, userScriptsDir, package, script, unitName).Some? ==>
      var path := UserScript(fs, userScriptsDir, package, script, unitName).value;
      var generated := Existing(scripts, FragmentKey(package, script));
      && path in fs
      && (r.Err? <==> !Contains(fs[path], Marker) || generated == Marker)
      && (r.Err? ==> r.error == DebHelperReplaceFailed(path))
      && (r.Ok? ==> r.value == Some(ReplaceAll(fs[path], Marker, generated)))
    ensures UserScript(fs, userScriptsDir, package, script, unitName).None? ==>
      r == Ok(if FragmentKey(package, script) in scripts
              then Some(Shebang + scripts[FragmentKey(package, script)])
              else None)
  {
    var generatedFileName := FragmentKey(package, script);
    match UserScript(fs, userScriptsDir, package, script, unitName)
    case Some(userFilePath) =>
      var generatedText := Existing(scripts, generatedFileName);
      (match ReadFileToString(fs, userFilePath)
       case Err(e) => Err(e)
       case Ok(userText) =>
         var newText := ReplaceAll(userText, Marker, generatedText);
         ReplaceAllUnchanged(userText, Marker, generatedText);
         if newText == userText then Err(DebHelperReplaceFailed(userFilePath))
         else Ok(Some(newText)))
    case None =>
      if generatedFileName in scripts then Ok(Some(Shebang + scripts[generatedFileName]))
      else Ok(None)
  }

  /** `debhelper_script_subst`: store the composed script under its final name. */
  function DebhelperScriptSubst(fs: FileSystem, userScriptsDir: string, scripts: ScriptFragments,
                                package: string, script: string, unitName: Option<string>)
    : (r: Result<ScriptFragments>)
    ensures r.Ok? <==> ComposedScript(fs, userScriptsDir, scripts, package, script, unitName).Ok?
    ensures r.Err? ==> r.error == ComposedScript(fs, userScriptsDir, scripts, package, script, unitName).error
    ensures r.Ok? ==> forall k :: k != script ==>
      (k in r.value <==> k in scripts) && (k in scripts ==> r.value[k] == scripts[k])
    ensures r.Ok? && ComposedScript(fs, userScriptsDir, scripts, package, script, unitName).value.Some? ==>
      script in r.value
      && r.value[script] == ComposedScript(fs, userScriptsDir, scripts, package, script, unitName).value.value
    ensures r.Ok? && ComposedScript(fs, userScriptsDir, scripts, package, script, unitName).value.None? ==>
      r.value == scripts
  {
    var text :- ComposedScript(fs, userScriptsDir, scripts, package, script, unitName);
    match text
    case Some(t) => Ok(scripts[script := t])
    case None => Ok(scripts)
  }

  /** Run `debhelper_script_subst` for each script in turn, stopping at the first
      error. The only error is a user script the fragments could not be spliced
      into; every key is kept, and a key not named in `kinds` keeps its text. */
  function ApplyScripts(fs: FileSystem, userScriptsDir: string, scripts: ScriptFragments,
                        package: string, unitName: Option<string>, kinds: seq<string>)
    : (r: Result<ScriptFragments>)
    ensures r.Err? ==> r.error.DebHelperReplaceFailed?
    ensures r.Ok? ==> scripts.Keys <= r.value.Keys
    ensures r.Ok? ==> forall k :: k !in kinds ==>
      (k in r.value <==> k in scripts) && (k in scripts ==> r.value[k] == scripts[k])
    decreases |kinds|
  {
    if |kinds| == 0 then Ok(scripts)
    else
      var next :- DebhelperScriptSubst(fs, userScriptsDir, scripts, package, kinds[0], unitName);
      assert forall k :: k !in kinds ==> k != kinds[0] && k !in kinds[1..];
      ApplyScripts(fs, userScriptsDir, next, package, unitName, kinds[1..])
  }

  /** `apply`: compose postinst, preinst, prerm and postrm, in that order. The
      table gains at most those four names, and every other entry keeps its text. */
  function Apply(fs: FileSystem, userScriptsDir: string, scripts: ScriptFragments,
                 package: string, unitName: Option<string>): (r: Result<ScriptFragments>)
    ensures r.Err? ==> r.error.DebHelperReplaceFailed?
    ensures r.Ok? ==> scripts.Keys <= r.value.Keys <= scripts.Keys + {"postinst", "preinst", "prerm", "postrm"}
    ensures r.Ok? ==> forall k :: k in scripts && k !in MaintainerScripts ==> r.value[k] == scripts[k]
  {
    ApplyScripts(fs, userScriptsDir, scripts, package, unitName, MaintainerScripts)
  }
}
