/**
 * `src/utils/directory.js`: the path of the generated config file, the check
 * that the working directory is a scaffolded project, the set-up of a new
 * project directory and the re-configuration of an existing one.
 */
module Directory {
  import opened Wrappers
  import opened Files
  import opened Chains

  /** `path.join(base, "packages", "shared")`. */
  function SharedDir(base: Path): Path
  {
    base + ["packages", "shared"]
  }

  /** `getConfigPath(base)`: `base/packages/shared/src/cw3d.config.ts`. */
  function ConfigPath(base: Path): (r: Path)
    ensures SharedDir(base) < r && |r| == |base| + 4
    ensures r[|base| + 2..] == ["src", "cw3d.config.ts"]
  {
    base + ["packages", "shared", "src", "cw3d.config.ts"]
  }

  /** Different projects have different config files. */
  lemma ConfigPathInjective(a: Path, b: Path)
    requires ConfigPath(a) == ConfigPath(b)
    ensures a == b
  {
    assert a == ConfigPath(a)[..|a|];
  }

  // ---------------------------------------------------------------------------
  // isInsideScaffoldAlchemyProject

  /** A value as `JSON.parse` returns it. */
  datatype Json =
    | JNull
    | JBool(b: bool)
    | JNumber(n: int)
    | JString(s: string)
    | JArray(items: seq<Json>)
    | JObject(members: map<string, Json>)

  /** The outcome of a JavaScript property read: it throws, is `undefined`, or is a value. */
  datatype Access = Throws | Undefined | Value(v: Json)

  /**
   * `a[key]` for a key that no prototype supplies (such as `workspaces` or
   * `packages`): reading from `undefined` or `null` throws, an object gives its
   * own member or `undefined`, every other value gives `undefined`.
   */
  function Member(a: Access, key: string): (r: Access)
    ensures r.Value? <==> a.Value? && a.v.JObject? && key in a.v.members
    ensures r.Value? ==> r.v == a.v.members[key]
    ensures r.Throws? <==> a.Throws? || a.Undefined? || a == Value(JNull)
  {
    match a
    case Throws => Throws
    case Undefined => Throws
    case Value(JNull) => Throws
    case Value(JObject(m)) => if key in m then Value(m[key]) else Undefined
    case Value(_) => Undefined
  }

  /**
   * The guard of lines 44-50: the manifest parses and
   * `packageJson.workspaces.packages` is an array (`![]` is false, so an
   * empty array passes).
   */
  predicate DeclaresPackages(parsed: Option<Json>)
  {
    parsed.Some? &&
    var packages := Member(Member(Value(parsed.value), "workspaces"), "packages");
    packages.Value? && packages.v.JArray?
  }

  /**
   * `isInsideScaffoldAlchemyProject()` in the working directory `cwd`, with
   * `parse` standing for `JSON.parse` (`None` when it throws). Every failure
   * is a `false` answer, never an error.
   */
  function IsInsideProject(t: Tree, cwd: Path, parse: string -> Option<Json>): bool
  {
    var manifest := cwd + ["package.json"];
    if !Exists(t, manifest) then false
    // reading a directory throws, and the catch answers false
    else if manifest !in t.files then false
    else if !DeclaresPackages(parse(t.files[manifest])) then false
    else if !Exists(t, SharedDir(cwd)) then false
    else Exists(t, ConfigPath(cwd))
  }

  /** The manifest's `workspaces` is an object whose `packages` is an array. */
  predicate ListsWorkspacePackages(j: Json)
  {
    && j.JObject? && "workspaces" in j.members
    && j.members["workspaces"].JObject? && "packages" in j.members["workspaces"].members
    && j.members["workspaces"].members["packages"].JArray?
  }

  /**
   * The project check holds exactly when `package.json` is a file that parses
   * to an object whose `workspaces.packages` is an array, `packages/shared`
   * exists and the config file exists.
   */
  lemma IsInsideProjectIff(t: Tree, cwd: Path, parse: string -> Option<Json>)
    ensures IsInsideProject(t, cwd, parse) <==>
      var manifest := cwd + ["package.json"];
      && manifest in t.files
      && parse(t.files[manifest]).Some? && ListsWorkspacePackages(parse(t.files[manifest]).value)
      && Exists(t, SharedDir(cwd))
      && Exists(t, ConfigPath(cwd))
  {
    var manifest := cwd + ["package.json"];
    if manifest in t.files {
      var parsed := parse(t.files[manifest]);
      if parsed.Some? {
        var w := Member(Value(parsed.value), "workspaces");
        assert DeclaresPackages(parsed) <==> ListsWorkspacePackages(parsed.value) by {
          if w.Value? { assert w.v == parsed.value.members["workspaces"]; }
        }
      }
    }
  }

  /**
   * In a well-formed tree the `packages/shared` check is implied by the
   * config file check that follows it.
   */
  lemma SharedCheckImplied(t: Tree, cwd: Path)
    requires WellFormed(t) && Exists(t, ConfigPath(cwd))
    ensures Exists(t, SharedDir(cwd))
  {
    var c := ConfigPath(cwd);
    assert c[..|cwd| + 2] == SharedDir(cwd);
  }

  /** An empty `workspaces.packages` array passes the guard. */
  lemma EmptyPackagesAccepted(j: Json)
    requires j == JObject(map["workspaces" := JObject(map["packages" := JArray([])])])
    ensures DeclaresPackages(Some(j))
  {
  }

  /** npm's array form `"workspaces": [...]` fails the guard: an array has no `packages`. */
  lemma WorkspacesArrayRejected(j: Json, items: seq<Json>)
    requires j.JObject? && "workspaces" in j.members && j.members["workspaces"] == JArray(items)
    ensures !DeclaresPackages(Some(j))
  {
  }

  // ---------------------------------------------------------------------------
  // setupProjectDirectory and updateProjectConfig

  /** Why a run ended early. */
  datatype Failure = Cancelled | MkdirFailed | CloneFailed | TemplateUnreadable | UnknownChain | WriteFailed

  /**
   * How `setupProjectDirectory` ends: it returns `{ projectDir, currentDir }`,
   * calls `process.exit(1)`, or throws to its caller.
   */
  datatype SetupResult = Created(projectDir: Path, currentDir: Path) | Exit1(reason: Failure) | Threw(reason: Failure)

  /** The filesystem after a run, whether the user was asked, and how it ended. */
  datatype SetupRun = SetupRun(fs: Tree, asked: bool, result: SetupResult)

  /**
   * The tree once the existing project directory, if any, has been removed
   * (the user having agreed to overwrite it).
   */
  function Cleared(t: Tree, projectDir: Path): Tree
  {
    if Exists(t, projectDir) then Removed(t, projectDir) else t
  }

  /** The path of the `.git` directory of a clone. */
  function GitDir(projectDir: Path): Path
  {
    projectDir + [".git"]
  }

  /**
   * `setupProjectDirectory(projectName, chain, inquirer)` run in `currentDir`
   * on the filesystem `t`. `overwrite` is the answer the prompt would give,
   * `clone` what the clone capability reports and `template` the bundled
   * template (`None` when reading it throws). The steps, in order: exists
   * check, prompt, cancel or recursive delete, mkdir (outside the `try`),
   * clone, removal of `.git`, template read, chain field access, write.
   */
  function Setup(t: Tree, currentDir: Path, projectName: Path, chain: string, registry: seq<ChainConfig>,
                 overwrite: bool, clone: CloneOutcome, template: Option<string>): SetupRun
  {
    var projectDir := currentDir + projectName;
    var asked := Exists(t, projectDir);
    if asked && !overwrite then SetupRun(t, asked, Exit1(Cancelled))
    else
      var cleared := Cleared(t, projectDir);
      if !CanMkdir(cleared, projectDir) then SetupRun(cleared, asked, Threw(MkdirFailed))
      else
        var made := MadeDirs(cleared, projectDir);
        var chainConfig := FindChain(registry, chain);
        match clone
        case CloneFailure => SetupRun(made, asked, Exit1(CloneFailed))
        case Cloned(tree) =>
          var stripped := ClonedTree(t, projectDir, tree);
          if template.None? then SetupRun(stripped, asked, Exit1(TemplateUnreadable))
          else if chainConfig.None? then SetupRun(stripped, asked, Exit1(UnknownChain))
          else if !CanWrite(stripped, ConfigPath(projectDir)) then SetupRun(stripped, asked, Exit1(WriteFailed))
          else
            var content := Render(template.value, chainConfig.value);
            SetupRun(Written(stripped, ConfigPath(projectDir), content), asked, Created(projectDir, currentDir))
  }

  /** How `updateProjectConfig` ends: it returns, or throws to its caller. */
  datatype UpdateResult = Updated | UpdateThrew(reason: Failure)

  datatype UpdateRun = UpdateRun(fs: Tree, result: UpdateResult)

  /**
   * `updateProjectConfig(chain)` run in `currentDir`: the template read, the
   * chain field access and the write of the rendered config.
   */
  function Update(t: Tree, currentDir: Path, chain: string, registry: seq<ChainConfig>,
                  template: Option<string>): UpdateRun
  {
    var chainConfig := FindChain(registry, chain);
    if template.None? then UpdateRun(t, UpdateThrew(TemplateUnreadable))
    else if chainConfig.None? then UpdateRun(t, UpdateThrew(UnknownChain))
    else if !CanWrite(t, ConfigPath(currentDir)) then UpdateRun(t, UpdateThrew(WriteFailed))
    else UpdateRun(Written(t, ConfigPath(currentDir), Render(template.value, chainConfig.value)), Updated)
  }

  /** `writePackageConfig(projectDir, content)`: a write to `getConfigPath(projectDir)`. */
  method WritePackageConfig(fs: FileSystem, projectDir: Path, content: string) returns (ok: bool)
    requires fs.Valid()
    modifies fs
    ensures fs.Valid() && ok == CanWrite(old(fs.View()), ConfigPath(projectDir))
    ensures fs.View() == if ok then Written(old(fs.View()), ConfigPath(projectDir), content) else old(fs.View())
  {
    ok := fs.WriteFileSync(ConfigPath(projectDir), content);
  }

  /** `setupProjectDirectory`, step by step on the filesystem `fs`. */
  method SetupProjectDirectory(fs: FileSystem, currentDir: Path, projectName: Path, chain: string,
                               registry: seq<ChainConfig>, overwrite: bool, clone: CloneOutcome,
                               template: Option<string>)
    returns (result: SetupResult, asked: bool)
    requires fs.Valid() && (clone.Cloned? ==> Shaped(clone.tree))
    modifies fs
    ensures fs.Valid()
    ensures SetupRun(fs.View(), asked, result)
            == Setup(old(fs.View()), currentDir, projectName, chain, registry, overwrite, clone, template)
  {
    var projectDir := currentDir + projectName;
    var present := fs.ExistsSync(projectDir);
    asked := present;
    if present {
      if !overwrite {
        return Exit1(Cancelled), asked;
      }
      fs.RmSync(projectDir);
      RemovedWellFormed(old(fs.View()), projectDir);
    } else {
      AbsentHasNothingBelow(fs.View(), projectDir);
    }
    ghost var cleared := fs.View();
    var made := fs.MkdirSync(projectDir);
    if !made {
      return Threw(MkdirFailed), asked;
    }
    MadeDirsWellFormed(cleared, projectDir);
    var chainConfig := FindChain(registry, chain);
    var cloned := fs.Clone(projectDir, clone);
    if !cloned {
      return Exit1(CloneFailed), asked;
    }
    fs.RmSync(GitDir(projectDir));
    if template.None? {
      return Exit1(TemplateUnreadable), asked;
    }
    if chainConfig.None? {
      return Exit1(UnknownChain), asked;
    }
    var content := Render(template.value, chainConfig.value);
    var written := WritePackageConfig(fs, projectDir, content);
    if !written {
      return Exit1(WriteFailed), asked;
    }
    result := Created(projectDir, currentDir);
  }

  /** `updateProjectConfig`, on the filesystem `fs`. */
  method UpdateProjectConfig(fs: FileSystem, currentDir: Path, chain: string, registry: seq<ChainConfig>,
                             template: Option<string>)
    returns (result: UpdateResult)
    requires fs.Valid()
    modifies fs
    ensures fs.Valid()
    ensures UpdateRun(fs.View(), result) == Update(old(fs.View()), currentDir, chain, registry, template)
  {
    var chainConfig := FindChain(registry, chain);
    if template.None? {
      return UpdateThrew(TemplateUnreadable);
    }
    if chainConfig.None? {
      return UpdateThrew(UnknownChain);
    }
    var content := Render(template.value, chainConfig.value);
    var written := WritePackageConfig(fs, currentDir, content);
    if !written {
      return UpdateThrew(WriteFailed);
    }
    result := Updated;
  }

  // ---------------------------------------------------------------------------
  // What a set-up run promises

  /**
   * The user is asked exactly when the project directory already exists, and
   * the answer matters only then; declining leaves the filesystem as it was.
   */
  lemma SetupAsksOnlyWhenPresent(t: Tree, currentDir: Path, projectName: Path, chain: string,
                                 registry: seq<ChainConfig>, overwrite: bool, clone: CloneOutcome,
                                 template: Option<string>)
    ensures var r := Setup(t, currentDir, projectName, chain, registry, overwrite, clone, template);
      && r.asked == Exists(t, currentDir + projectName)
      && (r.result == Exit1(Cancelled) <==> Exists(t, currentDir + projectName) && !overwrite)
      && (r.result == Exit1(Cancelled) ==> r.fs == t)
      && (!r.asked ==> r == Setup(t, currentDir, projectName, chain, registry, !overwrite, clone, template))
  {
  }

  /**
   * The set-up throws only when `mkdirSync` fails, and in a well-formed tree
   * that happens only when a proper ancestor of the project directory is a
   * file.
   */
  lemma SetupThrowsOnlyUnderFile(t: Tree, currentDir: Path, projectName: Path, chain: string,
                                 registry: seq<ChainConfig>, overwrite: bool, clone: CloneOutcome,
                                 template: Option<string>)
    requires WellFormed(t)
    ensures var r := Setup(t, currentDir, projectName, chain, registry, overwrite, clone, template);
      var projectDir := currentDir + projectName;
      r.result.Threw? ==>
        && r.result.reason == MkdirFailed && r.fs == t
        && exists k :: 0 < k < |projectDir| && projectDir[..k] in t.files
  {
    var r := Setup(t, currentDir, projectName, chain, registry, overwrite, clone, template);
    var projectDir := currentDir + projectName;
    if r.result.Threw? {
      var cleared := Cleared(t, projectDir);
      assert !CanMkdir(cleared, projectDir);
      var k :| 0 < k <= |projectDir| && projectDir[..k] in cleared.files;
      assert projectDir[..k] in t.files;
      if Exists(t, projectDir) {
        // the removal took the directory itself, and what remains above it is made of directories
        assert false;
      }
      assert k != |projectDir| by {
        assert projectDir[..|projectDir|] == projectDir;
      }
    }
  }

  /**
   * A successful set-up returns `{ projectDir, currentDir }`, the config file
   * holds the template rendered for the chain, and nothing of the clone's
   * `.git` directory remains.
   */
  lemma SetupCreated(t: Tree, currentDir: Path, projectName: Path, chain: string,
                     registry: seq<ChainConfig>, overwrite: bool, clone: CloneOutcome,
                     template: Option<string>)
    ensures var r := Setup(t, currentDir, projectName, chain, registry, overwrite, clone, template);
      var projectDir := currentDir + projectName;
      r.result.Created? ==>
        && r.result == Created(projectDir, currentDir)
        && template.Some? && FindChain(registry, chain).Some? && clone.Cloned?
        && ConfigPath(projectDir) in r.fs.files
        && r.fs.files[ConfigPath(projectDir)] == Render(template.value, FindChain(registry, chain).value)
        && (forall q :: q in r.fs.dirs ==> !(GitDir(projectDir) <= q))
        && (forall q :: q in r.fs.files ==> !(GitDir(projectDir) <= q))
  {
    var r := Setup(t, currentDir, projectName, chain, registry, overwrite, clone, template);
    var projectDir := currentDir + projectName;
    if r.result.Created? {
      var c := ConfigPath(projectDir);
      assert GitDir(projectDir)[|projectDir|] != c[|projectDir|];
    }
  }

  /**
   * Whatever was in the project directory before is gone unless the user
   * declined: every file strictly below it afterwards is the config file or a
   * file of the clone, with the clone's content.
   */
  lemma SetupReplacesOldContents(t: Tree, currentDir: Path, projectName: Path, chain: string,
                                 registry: seq<ChainConfig>, overwrite: bool, clone: CloneOutcome,
                                 template: Option<string>)
    requires WellFormed(t)
    ensures var r := Setup(t, currentDir, projectName, chain, registry, overwrite, clone, template);
      var projectDir := currentDir + projectName;
      r.result != Exit1(Cancelled) ==>
        forall q :: q in r.fs.files && projectDir < q ==>
          || (r.result.Created? && q == ConfigPath(projectDir))
          || (clone.Cloned? && q[|projectDir|..] in clone.tree && r.fs.files[q] == clone.tree[q[|projectDir|..]])
  {
    var r := Setup(t, currentDir, projectName, chain, registry, overwrite, clone, template);
    var projectDir := currentDir + projectName;
    if r.result != Exit1(Cancelled) {
      var cleared := Cleared(t, projectDir);
      ClearedIsEmptyBelow(t, projectDir);
      if !CanMkdir(cleared, projectDir) {
        assert r.fs == cleared;
      } else if clone.CloneFailure? {
        assert r.fs.files == cleared.files;
      } else {
        var stripped := ClonedTree(t, projectDir, clone.tree);
        ClonedTreeFilesBelow(t, projectDir, clone.tree);
        var chainConfig := FindChain(registry, chain);
        if template.Some? && chainConfig.Some? && CanWrite(stripped, ConfigPath(projectDir)) {
          assert r.fs == Written(stripped, ConfigPath(projectDir), Render(template.value, chainConfig.value));
        } else {
          assert r.fs == stripped;
        }
      }
    }
  }

  /** Whether or not the project directory existed, nothing is below it once it is cleared. */
  lemma ClearedIsEmptyBelow(t: Tree, projectDir: Path)
    requires WellFormed(t)
    ensures NothingBelow(Cleared(t, projectDir), projectDir)
  {
    if Exists(t, projectDir) {
      RemovedWellFormed(t, projectDir);
    } else {
      AbsentHasNothingBelow(t, projectDir);
    }
  }

  /** Below the project directory, the tree before the config write holds only the clone. */
  lemma ClonedTreeFilesBelow(t: Tree, projectDir: Path, tree: map<Path, string>)
    requires WellFormed(t)
    ensures forall q :: q in ClonedTree(t, projectDir, tree).files && projectDir < q ==>
      q[|projectDir|..] in tree && ClonedTree(t, projectDir, tree).files[q] == tree[q[|projectDir|..]]
  {
    var cleared := Cleared(t, projectDir);
    ClearedIsEmptyBelow(t, projectDir);
    var made := MadeDirs(cleared, projectDir);
    var w := WithClone(made, projectDir, tree);
    forall q | q in ClonedTree(t, projectDir, tree).files && projectDir < q
      ensures q[|projectDir|..] in tree && w.files[q] == tree[q[|projectDir|..]]
    {
      assert q in w.files && q !in made.files;
      assert q in ClonedFiles(projectDir, tree);
    }
  }

  /**
   * An unknown chain is noticed only after the clone: the run exits with the
   * cloned files, less `.git`, left in the project directory.
   */
  lemma SetupUnknownChainKeepsClone(t: Tree, currentDir: Path, projectName: Path, chain: string,
                                    registry: seq<ChainConfig>, overwrite: bool, clone: CloneOutcome,
                                    template: Option<string>)
    ensures var r := Setup(t, currentDir, projectName, chain, registry, overwrite, clone, template);
      var projectDir := currentDir + projectName;
      r.result == Exit1(UnknownChain) ==>
        && FindChain(registry, chain).None? && template.Some? && clone.Cloned?
        && forall p :: p in clone.tree && !([".git"] <= p) ==>
             projectDir + p in r.fs.files && r.fs.files[projectDir + p] == clone.tree[p]
  {
    var r := Setup(t, currentDir, projectName, chain, registry, overwrite, clone, template);
    var projectDir := currentDir + projectName;
    if r.result == Exit1(UnknownChain) {
      forall p | p in clone.tree && !([".git"] <= p)
        ensures !(GitDir(projectDir) <= projectDir + p)
      {
        assert |p| > 0 ==> (projectDir + p)[|projectDir|] == p[0];
      }
    }
  }

  /** The set-up touches nothing but the project directory and its ancestors. */
  lemma SetupFrame(t: Tree, currentDir: Path, projectName: Path, chain: string,
                   registry: seq<ChainConfig>, overwrite: bool, clone: CloneOutcome,
                   template: Option<string>)
    ensures SameOutside(t, Setup(t, currentDir, projectName, chain, registry, overwrite, clone, template).fs,
                        currentDir + projectName)
  {
    var projectDir := currentDir + projectName;
    var asked := Exists(t, projectDir);
    if asked && !overwrite {
      return;
    }
    var cleared := Cleared(t, projectDir);
    RemovedFrame(t, projectDir);
    if !CanMkdir(cleared, projectDir) {
      return;
    }
    var made := MadeDirs(cleared, projectDir);
    MadeDirsFrame(cleared, projectDir);
    SameOutsideTransitive(t, cleared, made, projectDir);
    if clone.CloneFailure? {
      return;
    }
    var w := WithClone(made, projectDir, clone.tree);
    WithCloneFrame(made, projectDir, clone.tree);
    SameOutsideTransitive(t, made, w, projectDir);
    var stripped := Removed(w, GitDir(projectDir));
    RemovedFrame(w, GitDir(projectDir));
    SameOutsideWiden(w, stripped, projectDir, GitDir(projectDir));
    SameOutsideTransitive(t, w, stripped, projectDir);
    var chainConfig := FindChain(registry, chain);
    if template.Some? && chainConfig.Some? && CanWrite(stripped, ConfigPath(projectDir)) {
      var content := Render(template.value, chainConfig.value);
      WrittenFrame(stripped, ConfigPath(projectDir), content, projectDir);
      SameOutsideTransitive(t, stripped, Written(stripped, ConfigPath(projectDir), content), projectDir);
    }
  }

  /** The tree a set-up leaves just before the config file is written. */
  function ClonedTree(t: Tree, projectDir: Path, tree: map<Path, string>): Tree
  {
    var made := MadeDirs(Cleared(t, projectDir), projectDir);
    Removed(WithClone(made, projectDir, tree), GitDir(projectDir))
  }

  /** Every step of a set-up keeps a real filesystem real. */
  lemma ClonedTreeWellFormed(t: Tree, projectDir: Path, tree: map<Path, string>)
    requires WellFormed(t) && Shaped(tree)
    requires CanMkdir(Cleared(t, projectDir), projectDir)
    ensures WellFormed(ClonedTree(t, projectDir, tree))
  {
    var cleared := Cleared(t, projectDir);
    ClearedIsEmptyBelow(t, projectDir);
    if Exists(t, projectDir) {
      RemovedWellFormed(t, projectDir);
    }
    MadeDirsWellFormed(cleared, projectDir);
    var made := MadeDirs(cleared, projectDir);
    WithCloneWellFormed(made, projectDir, tree);
    RemovedWellFormed(WithClone(made, projectDir, tree), GitDir(projectDir));
  }

  /** The clone's top-level `package.json` survives the removal of `.git`. */
  lemma ManifestSurvivesClone(t: Tree, projectDir: Path, tree: map<Path, string>)
    requires ["package.json"] in tree
    ensures var manifest := projectDir + ["package.json"];
      manifest in ClonedTree(t, projectDir, tree).files
      && ClonedTree(t, projectDir, tree).files[manifest] == tree[["package.json"]]
  {
    var manifest := projectDir + ["package.json"];
    var made := MadeDirs(Cleared(t, projectDir), projectDir);
    assert manifest in ClonedFiles(projectDir, tree);
    assert WithClone(made, projectDir, tree).files[manifest] == tree[["package.json"]];
    assert manifest[|projectDir|] != GitDir(projectDir)[|projectDir|];
  }

  /**
   * Writing the config file into a well-formed tree whose `package.json`
   * declares its packages makes the project check succeed.
   */
  lemma WrittenConfigMakesProject(s: Tree, projectDir: Path, content: string, parse: string -> Option<Json>)
    requires WellFormed(s) && CanWrite(s, ConfigPath(projectDir))
    requires projectDir + ["package.json"] in s.files
    requires DeclaresPackages(parse(s.files[projectDir + ["package.json"]]))
    ensures IsInsideProject(Written(s, ConfigPath(projectDir), content), projectDir, parse)
  {
    var c := ConfigPath(projectDir);
    var manifest := projectDir + ["package.json"];
    assert manifest != c by { assert |manifest| != |c|; }
    assert c[..|c| - 1][..|projectDir| + 2] == SharedDir(projectDir);
  }

  /**
   * A successful set-up from a clone whose top-level `package.json` declares
   * its workspace packages yields a directory the project check accepts.
   */
  lemma SetupYieldsProject(t: Tree, currentDir: Path, projectName: Path, chain: string,
                           registry: seq<ChainConfig>, overwrite: bool, tree: map<Path, string>,
                           template: Option<string>, parse: string -> Option<Json>)
    requires WellFormed(t) && Shaped(tree)
    requires ["package.json"] in tree && DeclaresPackages(parse(tree[["package.json"]]))
    ensures var r := Setup(t, currentDir, projectName, chain, registry, overwrite, Cloned(tree), template);
      r.result.Created? ==> IsInsideProject(r.fs, currentDir + projectName, parse)
  {
    var r := Setup(t, currentDir, projectName, chain, registry, overwrite, Cloned(tree), template);
    if r.result.Created? {
      var projectDir := currentDir + projectName;
      var stripped := ClonedTree(t, projectDir, tree);
      ClonedTreeWellFormed(t, projectDir, tree);
      ManifestSurvivesClone(t, projectDir, tree);
      var content := Render(template.value, FindChain(registry, chain).value);
      assert r.fs == Written(stripped, ConfigPath(projectDir), content);
      WrittenConfigMakesProject(stripped, projectDir, content, parse);
    }
  }

  /**
   * `updateProjectConfig` changes at most the config file: every other file
   * and every directory is kept, and it succeeds exactly when the template is
   * readable, the chain is known and the config path is writable.
   */
  lemma UpdateWritesOnlyConfig(t: Tree, currentDir: Path, chain: string, registry: seq<ChainConfig>,
                               template: Option<string>)
    ensures var r := Update(t, currentDir, chain, registry, template);
      && r.fs.dirs == t.dirs
      && (forall q :: q != ConfigPath(currentDir) ==> (q in r.fs.files <==> q in t.files))
      && (forall q :: q != ConfigPath(currentDir) && q in t.files ==> r.fs.files[q] == t.files[q])
      && (r.result == Updated <==>
            template.Some? && FindChain(registry, chain).Some? && CanWrite(t, ConfigPath(currentDir)))
      && (r.result == Updated ==>
            r.fs.files[ConfigPath(currentDir)] == Render(template.value, FindChain(registry, chain).value))
      && (r.result != Updated ==> r.fs == t)
  {
  }

  /**
   * Inside a project whose config file exists, a readable template and a
   * known chain always lead to a successful update.
   */
  lemma UpdateInsideProject(t: Tree, currentDir: Path, chain: string, registry: seq<ChainConfig>,
                            template: Option<string>)
    requires WellFormed(t) && ConfigPath(currentDir) in t.files
    requires template.Some? && FindChain(registry, chain).Some?
    ensures Update(t, currentDir, chain, registry, template).result == Updated
  {
    var c := ConfigPath(currentDir);
    assert c[..|c| - 1] in t.dirs;
  }

  /** Rendering the config again over a file that already holds it changes nothing. */
  lemma UpdateOverRendered(s: Tree, currentDir: Path, chain: string, registry: seq<ChainConfig>,
                           template: Option<string>)
    requires template.Some? && FindChain(registry, chain).Some? && CanWrite(s, ConfigPath(currentDir))
    ensures var w := Written(s, ConfigPath(currentDir), Render(template.value, FindChain(registry, chain).value));
      Update(w, currentDir, chain, registry, template) == UpdateRun(w, Updated)
  {
    var c := ConfigPath(currentDir);
    var content := Render(template.value, FindChain(registry, chain).value);
    var w := Written(s, c, content);
    assert CanWrite(w, c);
    assert w.files[c := content] == w.files;
  }

  /**
   * Running `updateProjectConfig` in a freshly set-up project with the same
   * chain and template changes nothing: the two render sites agree.
   */
  lemma UpdateAfterSetupIsIdempotent(t: Tree, currentDir: Path, projectName: Path, chain: string,
                                     registry: seq<ChainConfig>, overwrite: bool, clone: CloneOutcome,
                                     template: Option<string>)
    ensures var r := Setup(t, currentDir, projectName, chain, registry, overwrite, clone, template);
      r.result.Created? ==>
        Update(r.fs, currentDir + projectName, chain, registry, template) == UpdateRun(r.fs, Updated)
  {
    var r := Setup(t, currentDir, projectName, chain, registry, overwrite, clone, template);
    if r.result.Created? {
      var projectDir := currentDir + projectName;
      UpdateOverRendered(ClonedTree(t, projectDir, clone.tree), projectDir, chain, registry, template);
    }
  }
}
