/**
 * `projectInit`: creating a Gauge project in the working directory from a template. The
 * filesystem, the download, the unzipping, the JSON decoder and the post-install process
 * are collaborators: what each call returns is an input (`Env`, `Host`), and every call the
 * package makes on them is recorded, in order, as an `Effect` in the workspace's log.
 * `logger.Fatalf` ends the invocation; here it is an `Abort` that the entry points return
 * and after which nothing more happens.
 */
module ProjectInit {
  import opened Wrappers
  import opened Strings
  import opened Urls
  import Template

  const Gitignore := ".gitignore"
  const MetadataFile := "metadata.json"
  /** `filepath.Separator` on the platforms modelled here. */
  const Separator := '/'

  /** `templateMetadata`, as decoded from `metadata.json`. */
  datatype Metadata = Metadata(
    name: string, description: string, version: string,
    postInstallCmd: string, postInstallMsg: string)

  /** The part of the project manifest that `isGaugeProject` looks at. */
  datatype Manifest = Manifest(language: string)

  /**
   * One call of `filepath.Walk`'s callback: either a path with its file information
   * (whether it is a directory, and whether the manifest file exists inside it), or a
   * path for which the walk reports an error.
   */
  datatype Visit =
    | Visited(path: string, isDir: bool, hasManifest: bool)
    | WalkFailed(path: string, error: string)

  /** A call the package makes on its collaborators. */
  datatype Effect =
    | AppendToFile(target: string, source: string)
    | MirrorDir(source: string, target: string)
    | ReadFile(path: string)
    | Execute(command: seq<string>, dir: string)
    | Wait
    | Remove(path: string)
    | DownloadAndUnzip(url: string, dir: string)
    | UnzipArchive(file: string, dir: string)

  /** What the collaborators answer during one `copyTemplateContents`. */
  datatype Env = Env(
    walk: seq<Visit>,
    gitignoreExists: bool,
    appendError: Option<string>,
    mirrored: Result<seq<string>, string>,
    metadata: Result<string, string>,
    launchError: Option<string>,
    waitError: Option<string>)

  /** `json.Unmarshal` into `templateMetadata`. */
  type Decoder = string -> Result<Metadata, string>

  /** The errors `initializeTemplate` and `copyTemplateContents` return. */
  datatype InitError =
    | DownloadFailed(cause: string)
    | NoTemplateDir(unzipped: string, cause: string)
    | AppendFailed(cause: string)
    | MirrorFailed(cause: string)
    | ReadFailed(file: string, cause: string)
    | DecodeFailed(cause: string)
    | LaunchFailed(cause: string)
    | WaitFailed(cause: string)

  /** Why an entry point stops the invocation with `logger.Fatalf`. */
  datatype Abort =
    | NoWorkingDir(cause: string)
    | AlreadyProject
    | TemplateUnavailable(reason: Template.TemplateError)
    | UnparsableUrl(url: string)
    | InsecureUrl(url: string)
    | UnzipFailed(cause: string)
    | InitFailed(failure: InitError)

  /** What a step returns, and the calls it made, in order. */
  datatype Run = Run(err: Option<InitError>, effects: seq<Effect>)

  /** What an entry point ends with, and the calls it made, in order. */
  datatype Ending = Ending(abort: Option<Abort>, effects: seq<Effect>)

  // ---------------------------------------------------------------------------------
  // Paths
  // ---------------------------------------------------------------------------------

  /** `filepath.Join` of two elements: an empty element is ignored. */
  function PathJoin(a: string, b: string): (p: string)
    ensures a == "" ==> p == b
    ensures b == "" ==> p == a
    ensures a != "" && b != "" ==> p == a + [Separator] + b
  {
    if a == "" then b else if b == "" then a else a + [Separator] + b
  }

  /** `strings.Split(p, separator)[0]`: everything before the first separator. */
  function FirstSegment(p: string): (s: string)
    ensures Separator !in s
    ensures s <= p
    ensures s == p || p[|s|] == Separator
  {
    p[..IndexOf(p, Separator)]
  }

  // ---------------------------------------------------------------------------------
  // getTemplateDir
  // ---------------------------------------------------------------------------------

  /** A visit that makes the callback record its path. */
  predicate IsManifestDir(v: Visit) {
    v.Visited? && v.isDir && v.hasManifest
  }

  /** Where the walk stops: the first failed visit, or the end. */
  function FailureAt(visits: seq<Visit>): (i: nat)
    ensures i <= |visits|
    ensures i < |visits| ==> visits[i].WalkFailed?
    decreases |visits|
  {
    if visits == [] || visits[0].WalkFailed? then 0 else 1 + FailureAt(visits[1..])
  }

  /** Every visit before the one the walk stops at succeeded. */
  lemma {:induction false} FailureAtFirst(visits: seq<Visit>)
    ensures forall j :: 0 <= j < FailureAt(visits) ==> visits[j].Visited?
    decreases |visits|
  {
    if visits != [] && visits[0].Visited? {
      FailureAtFirst(visits[1..]);
      forall j | 0 < j < FailureAt(visits) ensures visits[j].Visited? {
        assert visits[j] == visits[1..][j - 1];
      }
    }
  }

  /** The position of the last manifest directory among `visits`, if any. */
  function LastManifest(visits: seq<Visit>): (r: Option<nat>)
    ensures r.Some? ==> r.value < |visits|
    decreases |visits|
  {
    if visits == [] then None
    else if IsManifestDir(visits[|visits| - 1]) then Some(|visits| - 1)
    else LastManifest(visits[..|visits| - 1])
  }

  /** `LastManifest` finds a manifest directory with none after it, and finds none only when there is none. */
  lemma {:induction false} LastManifestIsLast(visits: seq<Visit>)
    ensures var r := LastManifest(visits);
            r.Some? ==> IsManifestDir(visits[r.value]) && forall j :: r.value < j < |visits| ==> !IsManifestDir(visits[j])
    ensures LastManifest(visits).None? <==> forall j :: 0 <= j < |visits| ==> !IsManifestDir(visits[j])
    decreases |visits|
  {
    if visits != [] && !IsManifestDir(visits[|visits| - 1]) {
      var front := visits[..|visits| - 1];
      LastManifestIsLast(front);
      assert forall j :: 0 <= j < |front| ==> front[j] == visits[j];
    }
  }

  /** The directory `getTemplateDir` returns: the last manifest directory the walk reached, or "". */
  function WalkedDir(visits: seq<Visit>): string {
    var reached := visits[..FailureAt(visits)];
    match LastManifest(reached)
    case None => ""
    case Some(i) => reached[i].path
  }

  /** The error `getTemplateDir` returns: that of the first failed visit. */
  function WalkError(visits: seq<Visit>): Option<string> {
    var i := FailureAt(visits);
    if i < |visits| then Some(visits[i].error) else None
  }

  /**
   * `getTemplateDir` picks the last directory holding the manifest file among the visits
   * before the first failure, and "" when there is none; the first failure's error, if
   * any, is returned beside it.
   */
  lemma WalkedDirIsLast(visits: seq<Visit>)
    ensures var stop := FailureAt(visits);
            (forall j :: 0 <= j < stop ==> !IsManifestDir(visits[j])) ==> WalkedDir(visits) == ""
    ensures var stop := FailureAt(visits);
            (exists j :: 0 <= j < stop && IsManifestDir(visits[j])) ==>
              exists i :: 0 <= i < stop && IsManifestDir(visits[i]) && visits[i].path == WalkedDir(visits)
                && forall j :: i < j < stop ==> !IsManifestDir(visits[j])
    ensures WalkError(visits).Some? <==> exists j :: 0 <= j < |visits| && visits[j].WalkFailed?
    ensures WalkError(visits).Some? ==> WalkError(visits).value == visits[FailureAt(visits)].error
  {
    var stop := FailureAt(visits);
    var reached := visits[..stop];
    FailureAtFirst(visits);
    LastManifestIsLast(reached);
    assert forall j :: 0 <= j < stop ==> reached[j] == visits[j];
  }

  /** `getTemplateDir`: the callback records each manifest directory; an error stops the walk. */
  method GetTemplateDir(visits: seq<Visit>) returns (templateDir: string, err: Option<string>)
    ensures templateDir == WalkedDir(visits)
    ensures err == WalkError(visits)
  {
    FailureAtFirst(visits);
    templateDir := "";
    var i := 0;
    while i < |visits| && visits[i].Visited?
      invariant 0 <= i <= FailureAt(visits)
      invariant templateDir == match LastManifest(visits[..i]) { case None => "" case Some(j) => visits[j].path }
    {
      assert visits[..i + 1][..i] == visits[..i];
      if visits[i].isDir && visits[i].hasManifest {
        templateDir := visits[i].path;
      }
      i := i + 1;
    }
    assert i == FailureAt(visits);
    err := if i < |visits| then Some(visits[i].error) else None;
  }

  // ---------------------------------------------------------------------------------
  // copyTemplateContents, as a state machine over what the collaborators answer
  // ---------------------------------------------------------------------------------

  /** The calls `rs` made after the calls `es`. */
  function After(es: seq<Effect>, rs: Run): (r: Run)
    ensures r.err == rs.err && r.effects == es + rs.effects
  {
    Run(rs.err, es + rs.effects)
  }

  /** The removals of the rollback loop: `wd/<first segment>` of each added file, in order. */
  function Rollback(wd: string, files: seq<string>): (r: seq<Effect>)
    ensures |r| == |files|
    decreases |files|
  {
    if files == [] then []
    else Rollback(wd, files[..|files| - 1]) + [Remove(PathJoin(wd, FirstSegment(files[|files| - 1])))]
  }

  /** The rollback's `i`th call removes the first segment of the `i`th added file. */
  lemma {:induction false} RollbackRemovals(wd: string, files: seq<string>)
    ensures forall i :: 0 <= i < |files| ==> Rollback(wd, files)[i] == Remove(PathJoin(wd, FirstSegment(files[i])))
    decreases |files|
  {
    if files != [] {
      var front := files[..|files| - 1];
      RollbackRemovals(wd, front);
      assert forall i :: 0 <= i < |front| ==> front[i] == files[i];
    }
  }

  /** How far `copyTemplateContents` has got once its template directory is known. */
  datatype Stage =
    | AppendGitignore(templateDir: string)
    | MirrorTemplate(templateDir: string)
    | ReadMetadata(files: seq<string>)
    | DecodeMetadata(files: seq<string>, contents: string)
    | Launch(files: seq<string>, command: string)
    | WaitForCommand
    | Cleanup

  function Remaining(stage: Stage): nat {
    match stage
    case AppendGitignore(_) => 6
    case MirrorTemplate(_) => 5
    case ReadMetadata(_) => 4
    case DecodeMetadata(_, _) => 3
    case Launch(_, _) => 2
    case WaitForCommand => 1
    case Cleanup => 0
  }

  /** What follows the decoded metadata: the post-install command when there is one, else the cleanup. */
  function AfterDecoding(files: seq<string>, command: string): Stage {
    if command == "" then Cleanup else Launch(files, command)
  }

  /** The rest of `copyTemplateContents` from `stage` on, in the project root `wd`. */
  function Step(wd: string, env: Env, decode: Decoder, stage: Stage): Run
    decreases Remaining(stage)
  {
    var metadataFile := PathJoin(wd, MetadataFile);
    match stage
    case AppendGitignore(templateDir) =>
      if !env.gitignoreExists then Step(wd, env, decode, MirrorTemplate(templateDir))
      else
        After([AppendToFile(Gitignore, PathJoin(templateDir, Gitignore))],
          if env.appendError.Some? then Run(Some(AppendFailed(env.appendError.value)), [])
          else Step(wd, env, decode, MirrorTemplate(templateDir)))
    case MirrorTemplate(templateDir) =>
      After([MirrorDir(templateDir, wd)],
        if env.mirrored.Err? then Run(Some(MirrorFailed(env.mirrored.error)), [])
        else Step(wd, env, decode, ReadMetadata(env.mirrored.value)))
    case ReadMetadata(files) =>
      After([ReadFile(metadataFile)],
        if env.metadata.Err? then Run(Some(ReadFailed(metadataFile, env.metadata.error)), [])
        else Step(wd, env, decode, DecodeMetadata(files, env.metadata.value)))
    case DecodeMetadata(files, contents) =>
      var decoded := decode(contents);
      if decoded.Err? then Run(Some(DecodeFailed(decoded.error)), [])
      else Step(wd, env, decode, AfterDecoding(files, decoded.value.postInstallCmd))
    case Launch(files, command) =>
      After([Execute(Fields(command), wd)],
        if env.launchError.Some? then Run(Some(LaunchFailed(env.launchError.value)), Rollback(wd, files))
        else Step(wd, env, decode, WaitForCommand))
    case WaitForCommand =>
      After([Wait],
        if env.waitError.Some? then Run(Some(WaitFailed(env.waitError.value)), [])
        else Step(wd, env, decode, Cleanup))
    case Cleanup => Run(None, [Remove(metadataFile)])
  }

  /** `copyTemplateContents` of the unzipped template `unzipped` into the project root `wd`. */
  function Copy(wd: string, unzipped: string, env: Env, decode: Decoder): Run {
    var walkError := WalkError(env.walk);
    if walkError.Some? then Run(Some(NoTemplateDir(unzipped, walkError.value)), [])
    else Step(wd, env, decode, AppendGitignore(WalkedDir(env.walk)))
  }

  /** Every step before the post-install command succeeded. */
  predicate Decoded(env: Env, decode: Decoder) {
    && WalkError(env.walk).None?
    && !(env.gitignoreExists && env.appendError.Some?)
    && env.mirrored.Ok?
    && env.metadata.Ok?
    && decode(env.metadata.value).Ok?
  }

  /** The post-install command of a copy that got as far as decoding the metadata. */
  function Command(env: Env, decode: Decoder): string
    requires Decoded(env, decode)
  {
    decode(env.metadata.value).value.postInstallCmd
  }

  /** The calls of a copy before its post-install step. */
  function Prepared(wd: string, env: Env): seq<Effect> {
    var templateDir := WalkedDir(env.walk);
    (if env.gitignoreExists then [AppendToFile(Gitignore, PathJoin(templateDir, Gitignore))] else [])
    + [MirrorDir(templateDir, wd), ReadFile(PathJoin(wd, MetadataFile))]
  }

  /** Before the post-install step nothing is run, waited for or removed, and `.gitignore` is touched only if it exists. */
  lemma PreparedCalls(wd: string, env: Env)
    ensures forall e :: e in Prepared(wd, env) ==> !e.Execute? && !e.Remove? && e != Wait
    ensures forall e :: e in Prepared(wd, env) && e.AppendToFile? ==> env.gitignoreExists
  {
  }

  /** A copy that got as far as decoding the metadata: its calls so far, then the post-install step. */
  lemma CopyDecoded(wd: string, unzipped: string, env: Env, decode: Decoder)
    requires Decoded(env, decode)
    ensures Copy(wd, unzipped, env, decode)
            == After(Prepared(wd, env), Step(wd, env, decode, AfterDecoding(env.mirrored.value, Command(env, decode))))
  {
    var dir := WalkedDir(env.walk);
    var rest := Step(wd, env, decode, AfterDecoding(env.mirrored.value, Command(env, decode)));
    var gi: seq<Effect> := if env.gitignoreExists then [AppendToFile(Gitignore, PathJoin(dir, Gitignore))] else [];
    var md := [MirrorDir(dir, wd), ReadFile(PathJoin(wd, MetadataFile))];
    GitignoreAppended(wd, env, decode, dir);
    MirrorDecoded(wd, env, decode, dir);
    AfterAfter(gi, md, rest);
  }

  /** Calls made in two stretches. */
  lemma AfterAfter(first: seq<Effect>, second: seq<Effect>, rs: Run)
    ensures After(first, After(second, rs)) == After(first + second, rs)
  {
    assert first + (second + rs.effects) == (first + second) + rs.effects;
  }

  /** A `.gitignore` step that succeeds goes on to mirroring, having appended when the file exists. */
  lemma GitignoreAppended(wd: string, env: Env, decode: Decoder, dir: string)
    requires !(env.gitignoreExists && env.appendError.Some?)
    ensures Step(wd, env, decode, AppendGitignore(dir))
            == After(if env.gitignoreExists then [AppendToFile(Gitignore, PathJoin(dir, Gitignore))] else [],
                     Step(wd, env, decode, MirrorTemplate(dir)))
  {
    if !env.gitignoreExists {
      assert [] + Step(wd, env, decode, MirrorTemplate(dir)).effects == Step(wd, env, decode, MirrorTemplate(dir)).effects;
    }
  }

  /** Mirroring, reading and decoding that all succeed lead to the post-install step. */
  lemma MirrorDecoded(wd: string, env: Env, decode: Decoder, dir: string)
    requires env.mirrored.Ok? && env.metadata.Ok? && decode(env.metadata.value).Ok?
    ensures Step(wd, env, decode, MirrorTemplate(dir))
            == After([MirrorDir(dir, wd), ReadFile(PathJoin(wd, MetadataFile))],
                     Step(wd, env, decode, AfterDecoding(env.mirrored.value, decode(env.metadata.value).value.postInstallCmd)))
  {
    var rest := Step(wd, env, decode, AfterDecoding(env.mirrored.value, decode(env.metadata.value).value.postInstallCmd));
    assert Step(wd, env, decode, DecodeMetadata(env.mirrored.value, env.metadata.value)) == rest;
    var read := Step(wd, env, decode, ReadMetadata(env.mirrored.value));
    assert read == After([ReadFile(PathJoin(wd, MetadataFile))], rest);
    assert Step(wd, env, decode, MirrorTemplate(dir)) == After([MirrorDir(dir, wd)], read);
    assert [MirrorDir(dir, wd)] + ([ReadFile(PathJoin(wd, MetadataFile))] + rest.effects)
           == [MirrorDir(dir, wd), ReadFile(PathJoin(wd, MetadataFile))] + rest.effects;
  }

  /** A copy that stops before its post-install step fails, having made only the first calls of `Prepared`. */
  lemma CopyEarly(wd: string, unzipped: string, env: Env, decode: Decoder)
    requires !Decoded(env, decode)
    ensures Copy(wd, unzipped, env, decode).err.Some?
    ensures Copy(wd, unzipped, env, decode).effects <= Prepared(wd, env)
  {
    if WalkError(env.walk).None? {
      var dir := WalkedDir(env.walk);
      var gi: seq<Effect> := if env.gitignoreExists then [AppendToFile(Gitignore, PathJoin(dir, Gitignore))] else [];
      var mirror := Step(wd, env, decode, MirrorTemplate(dir));
      if !(env.gitignoreExists && env.appendError.Some?) {
        assert Step(wd, env, decode, AppendGitignore(dir)) == After(gi, mirror);
        if env.mirrored.Ok? {
          var read := Step(wd, env, decode, ReadMetadata(env.mirrored.value));
          assert mirror == After([MirrorDir(dir, wd)], read);
          if env.metadata.Ok? {
            assert Step(wd, env, decode, DecodeMetadata(env.mirrored.value, env.metadata.value)).effects == [];
          }
          assert read.effects == [ReadFile(PathJoin(wd, MetadataFile))];
          assert gi + ([MirrorDir(dir, wd)] + read.effects) == Prepared(wd, env);
        }
      }
    }
  }

  /** The post-install command's step: launch, then wait, then the cleanup. */
  lemma LaunchStep(wd: string, env: Env, decode: Decoder, files: seq<string>, command: string)
    ensures var r := Step(wd, env, decode, Launch(files, command));
            var run := Execute(Fields(command), wd);
            && (env.launchError.Some? ==>
                  r == Run(Some(LaunchFailed(env.launchError.value)), [run] + Rollback(wd, files)))
            && (env.launchError.None? && env.waitError.Some? ==>
                  r == Run(Some(WaitFailed(env.waitError.value)), [run, Wait]))
            && (env.launchError.None? && env.waitError.None? ==>
                  r == Run(None, [run, Wait, Remove(PathJoin(wd, MetadataFile))]))
  {
    var cleanup := Step(wd, env, decode, Cleanup);
    assert cleanup == Run(None, [Remove(PathJoin(wd, MetadataFile))]);
    var waiting := Step(wd, env, decode, WaitForCommand);
    assert env.waitError.None? ==> waiting == After([Wait], cleanup);
  }

  /** The post-install step only launches the command (first), waits and removes. */
  lemma PostInstallCalls(wd: string, env: Env, decode: Decoder, files: seq<string>, command: string)
    ensures var r := Step(wd, env, decode, AfterDecoding(files, command)).effects;
            forall i :: 0 <= i < |r| ==>
              && (r[i].Execute? || r[i].Remove? || r[i] == Wait)
              && (r[i].Execute? ==> i == 0 && command != "" && r[i] == Execute(Fields(command), wd))
    ensures var r := Step(wd, env, decode, AfterDecoding(files, command)).effects;
            command != "" ==> r != [] && r[0] == Execute(Fields(command), wd)
  {
    if command == "" {
      assert Step(wd, env, decode, Cleanup) == Run(None, [Remove(PathJoin(wd, MetadataFile))]);
    } else {
      LaunchStep(wd, env, decode, files, command);
      RollbackRemovals(wd, files);
    }
  }

  /**
   * The project's `.gitignore` gets the template's appended only when it exists and the
   * walk reported no error, and then as the first call; a failing append ends the copy
   * before anything is mirrored.
   */
  lemma GitignoreAppendedOnlyIfPresent(wd: string, unzipped: string, env: Env, decode: Decoder)
    ensures var r := Copy(wd, unzipped, env, decode);
            (exists i :: 0 <= i < |r.effects| && r.effects[i].AppendToFile?)
            ==> WalkError(env.walk).None? && env.gitignoreExists
    ensures var r := Copy(wd, unzipped, env, decode);
            WalkError(env.walk).None? && env.gitignoreExists ==>
              r.effects != [] && r.effects[0] == AppendToFile(Gitignore, PathJoin(WalkedDir(env.walk), Gitignore))
    ensures var r := Copy(wd, unzipped, env, decode);
            WalkError(env.walk).None? && env.gitignoreExists && env.appendError.Some? ==>
              r.err == Some(AppendFailed(env.appendError.value)) && |r.effects| == 1
  {
    var r := Copy(wd, unzipped, env, decode);
    var prefix := Prepared(wd, env);
    PreparedCalls(wd, env);
    if Decoded(env, decode) {
      CopyDecoded(wd, unzipped, env, decode);
      var command := Command(env, decode);
      var rest := Step(wd, env, decode, AfterDecoding(env.mirrored.value, command));
      PostInstallCalls(wd, env, decode, env.mirrored.value, command);
      forall i | 0 <= i < |r.effects| && r.effects[i].AppendToFile? ensures env.gitignoreExists {
        if i < |prefix| {
          assert r.effects[i] in prefix;
        }
      }
    } else {
      CopyEarly(wd, unzipped, env, decode);
      forall i | 0 <= i < |r.effects| && r.effects[i].AppendToFile? ensures env.gitignoreExists {
        assert r.effects[i] == prefix[i];
        assert prefix[i] in prefix;
      }
    }
  }

  /**
   * When the walk succeeds but no directory holds the manifest file, the template root is
   * `""`, so `filepath.Join("", ".gitignore")` is `.gitignore` itself: an existing project
   * `.gitignore` is appended to itself.
   */
  lemma GitignoreAppendedToItself(wd: string, unzipped: string, env: Env, decode: Decoder)
    requires WalkError(env.walk).None? && env.gitignoreExists
    requires forall j :: 0 <= j < |env.walk| ==> !IsManifestDir(env.walk[j])
    ensures var r := Copy(wd, unzipped, env, decode);
            r.effects != [] && r.effects[0] == AppendToFile(Gitignore, Gitignore)
  {
    WalkedDirIsLast(env.walk);
    assert WalkedDir(env.walk) == "";
    GitignoreAppendedOnlyIfPresent(wd, unzipped, env, decode);
  }

  /**
   * The post-install command runs exactly when the copy got as far as the decoded metadata
   * and the command is not empty: its words, split on white space, in the project root.
   */
  lemma CommandOnlyIfGiven(wd: string, unzipped: string, env: Env, decode: Decoder)
    ensures var r := Copy(wd, unzipped, env, decode);
            (exists i :: 0 <= i < |r.effects| && r.effects[i].Execute?)
            <==> Decoded(env, decode) && Command(env, decode) != ""
    ensures var r := Copy(wd, unzipped, env, decode);
            forall i :: 0 <= i < |r.effects| && r.effects[i].Execute? ==>
              Decoded(env, decode) && r.effects[i] == Execute(Fields(Command(env, decode)), wd)
  {
    var r := Copy(wd, unzipped, env, decode);
    var prefix := Prepared(wd, env);
    PreparedCalls(wd, env);
    if Decoded(env, decode) {
      CopyDecoded(wd, unzipped, env, decode);
      var command := Command(env, decode);
      var rest := Step(wd, env, decode, AfterDecoding(env.mirrored.value, command));
      assert r.effects == prefix + rest.effects;
      PostInstallCalls(wd, env, decode, env.mirrored.value, command);
      if command != "" {
        assert r.effects[|prefix|] == Execute(Fields(command), wd);
      }
      forall i | 0 <= i < |r.effects| && r.effects[i].Execute?
        ensures command != "" && r.effects[i] == Execute(Fields(command), wd)
      {
        if i >= |prefix| {
          assert r.effects[i] == rest.effects[i - |prefix|];
        }
      }
    } else {
      CopyEarly(wd, unzipped, env, decode);
      forall i | 0 <= i < |r.effects| ensures !r.effects[i].Execute? {
        assert r.effects[i] == prefix[i];
        assert prefix[i] in prefix;
      }
    }
  }

  /** The rollback removes `wd/<first segment>` of each added file and does nothing else. */
  lemma RollbackRemovesAdded(wd: string, files: seq<string>)
    ensures forall f :: f in files ==> Remove(PathJoin(wd, FirstSegment(f))) in Rollback(wd, files)
    ensures forall e :: e in Rollback(wd, files) ==>
              exists f :: f in files && e == Remove(PathJoin(wd, FirstSegment(f)))
  {
    var back := Rollback(wd, files);
    RollbackRemovals(wd, files);
    forall f | f in files ensures Remove(PathJoin(wd, FirstSegment(f))) in back {
      var k :| 0 <= k < |files| && files[k] == f;
      assert back[k] == Remove(PathJoin(wd, FirstSegment(f)));
    }
    forall e | e in back ensures exists f :: f in files && e == Remove(PathJoin(wd, FirstSegment(f))) {
      var k :| 0 <= k < |back| && back[k] == e;
      assert files[k] in files;
    }
  }

  /**
   * A command that cannot be launched ends the copy with an error after removing
   * `wd/<first segment>` of every added file and nothing else, without waiting.
   */
  lemma LaunchFailureRollsBack(wd: string, unzipped: string, env: Env, decode: Decoder)
    requires Decoded(env, decode) && Command(env, decode) != "" && env.launchError.Some?
    ensures var r := Copy(wd, unzipped, env, decode);
            && r.err == Some(LaunchFailed(env.launchError.value))
            && (forall f :: f in env.mirrored.value ==> Remove(PathJoin(wd, FirstSegment(f))) in r.effects)
            && (forall e :: e in r.effects && e.Remove? ==>
                  exists f :: f in env.mirrored.value && e == Remove(PathJoin(wd, FirstSegment(f))))
            && Wait !in r.effects
  {
    var files := env.mirrored.value;
    var r := Copy(wd, unzipped, env, decode);
    var prefix := Prepared(wd, env);
    PreparedCalls(wd, env);
    var command := Command(env, decode);
    CopyDecoded(wd, unzipped, env, decode);
    LaunchStep(wd, env, decode, files, command);
    var back := Rollback(wd, files);
    RollbackRemovesAdded(wd, files);
    assert r.effects == prefix + ([Execute(Fields(command), wd)] + back);
    assert forall e :: e in r.effects <==> e in prefix || e == Execute(Fields(command), wd) || e in back;
  }

  /**
   * `metadata.json` is read from the project root after mirroring, so it is normally among
   * the added files; a launch failure then removes it, as part of the rollback.
   */
  lemma LaunchFailureRemovesMirroredMetadata(wd: string, unzipped: string, env: Env, decode: Decoder)
    requires Decoded(env, decode) && Command(env, decode) != "" && env.launchError.Some?
    requires MetadataFile in env.mirrored.value
    ensures Remove(PathJoin(wd, MetadataFile)) in Copy(wd, unzipped, env, decode).effects
  {
    var files := env.mirrored.value;
    var command := Command(env, decode);
    CopyDecoded(wd, unzipped, env, decode);
    LaunchStep(wd, env, decode, files, command);
    var back := Rollback(wd, files);
    RollbackRemovesAdded(wd, files);
    MetadataFileSegment();
    assert Remove(PathJoin(wd, MetadataFile)) in back;
    assert Copy(wd, unzipped, env, decode).effects == Prepared(wd, env) + ([Execute(Fields(command), wd)] + back);
  }

  /** `metadata.json` is a single path segment. */
  lemma MetadataFileSegment()
    ensures FirstSegment(MetadataFile) == MetadataFile
  {
    assert Separator !in MetadataFile;
  }

  /** A command that was launched but failed leaves every copied file, and `metadata.json`, in place. */
  lemma WaitFailureKeepsFiles(wd: string, unzipped: string, env: Env, decode: Decoder)
    requires Decoded(env, decode) && Command(env, decode) != ""
    requires env.launchError.None? && env.waitError.Some?
    ensures var r := Copy(wd, unzipped, env, decode);
            && r.err == Some(WaitFailed(env.waitError.value))
            && forall i :: 0 <= i < |r.effects| ==> !r.effects[i].Remove?
  {
    var r := Copy(wd, unzipped, env, decode);
    var prefix := Prepared(wd, env);
    PreparedCalls(wd, env);
    var command := Command(env, decode);
    CopyDecoded(wd, unzipped, env, decode);
    LaunchStep(wd, env, decode, env.mirrored.value, command);
    assert r.effects == prefix + [Execute(Fields(command), wd), Wait];
    forall i | 0 <= i < |r.effects| ensures !r.effects[i].Remove? {
      if i < |prefix| {
        assert r.effects[i] in prefix;
      }
    }
  }

  /**
   * The copy succeeds exactly when every step does; then its last call, and its only
   * removal, is that of `wd/metadata.json`.
   */
  lemma SuccessRemovesMetadata(wd: string, unzipped: string, env: Env, decode: Decoder)
    ensures var r := Copy(wd, unzipped, env, decode);
            r.err.None? <==>
              Decoded(env, decode) && (Command(env, decode) == "" || (env.launchError.None? && env.waitError.None?))
    ensures var r := Copy(wd, unzipped, env, decode);
            r.err.None? ==>
              && |r.effects| > 0
              && r.effects[|r.effects| - 1] == Remove(PathJoin(wd, MetadataFile))
              && forall i :: 0 <= i < |r.effects| - 1 ==> !r.effects[i].Remove?
  {
    var r := Copy(wd, unzipped, env, decode);
    var prefix := Prepared(wd, env);
    PreparedCalls(wd, env);
    if Decoded(env, decode) {
      var command := Command(env, decode);
      CopyDecoded(wd, unzipped, env, decode);
      var tail: seq<Effect>;
      if command == "" {
        assert Step(wd, env, decode, Cleanup) == Run(None, [Remove(PathJoin(wd, MetadataFile))]);
        tail := [];
      } else {
        LaunchStep(wd, env, decode, env.mirrored.value, command);
        tail := [Execute(Fields(command), wd), Wait];
      }
      if r.err.None? {
        assert r.effects == prefix + tail + [Remove(PathJoin(wd, MetadataFile))];
        forall i | 0 <= i < |r.effects| - 1 ensures !r.effects[i].Remove? {
          if i < |prefix| {
            assert r.effects[i] in prefix;
          } else {
            assert r.effects[i] == tail[i - |prefix|];
          }
        }
      }
    } else {
      CopyEarly(wd, unzipped, env, decode);
    }
  }

  /** A copy that fails before the metadata is decoded runs nothing and removes nothing. */
  lemma EarlyFailureRemovesNothing(wd: string, unzipped: string, env: Env, decode: Decoder)
    requires !Decoded(env, decode)
    ensures var r := Copy(wd, unzipped, env, decode);
            && r.err.Some?
            && forall i :: 0 <= i < |r.effects| ==> !r.effects[i].Remove? && !r.effects[i].Execute?
  {
    var r := Copy(wd, unzipped, env, decode);
    var prefix := Prepared(wd, env);
    PreparedCalls(wd, env);
    CopyEarly(wd, unzipped, env, decode);
    forall i | 0 <= i < |r.effects| ensures !r.effects[i].Remove? && !r.effects[i].Execute? {
      assert r.effects[i] == prefix[i];
      assert prefix[i] in prefix;
    }
  }

  /**
   * With a non-empty project root and added paths relative to the template, every path the
   * rollback removes is a top-level entry strictly inside the project root.
   */
  lemma RollbackStaysInside(wd: string, files: seq<string>)
    requires wd != ""
    requires forall f :: f in files ==> f != "" && f[0] != Separator
    ensures forall e :: e in Rollback(wd, files) ==>
              exists top :: top != "" && Separator !in top && e == Remove(wd + [Separator] + top)
  {
    var r := Rollback(wd, files);
    RollbackRemovals(wd, files);
    forall e | e in r
      ensures exists top :: top != "" && Separator !in top && e == Remove(wd + [Separator] + top)
    {
      var i :| 0 <= i < |r| && r[i] == e;
      var top := FirstSegment(files[i]);
      assert files[i] in files;
      assert e == Remove(wd + [Separator] + top);
    }
  }

  // ---------------------------------------------------------------------------------
  // checkURL, isGaugeProject
  // ---------------------------------------------------------------------------------

  /**
   * `checkURL`: a location that does not parse aborts; one whose scheme is not `https`
   * aborts unless insecure downloads are allowed.
   */
  function CheckUrl(url: string, parse: UriParser, allowInsecure: bool): (r: Option<Abort>)
    ensures parse(url).None? ==> r == Some(UnparsableUrl(url))
    ensures parse(url).Some? ==> (r.None? <==> parse(url).value.scheme == Https || allowInsecure)
    ensures parse(url).Some? && r.Some? ==> r == Some(InsecureUrl(url))
  {
    match parse(url)
    case None => Some(UnparsableUrl(url))
    case Some(u) => if u.scheme != Https && !allowInsecure then Some(InsecureUrl(url)) else None
  }

  /** An `https` location that parses always passes; allowing insecure downloads never rejects more. */
  lemma CheckUrlMonotone(url: string, parse: UriParser)
    ensures parse(url).Some? && parse(url).value.scheme == Https ==> CheckUrl(url, parse, false).None?
    ensures CheckUrl(url, parse, false).None? ==> CheckUrl(url, parse, true).None?
    ensures CheckUrl(url, parse, true).None? <==> parse(url).Some?
  {
  }

  /** `isGaugeProject`: the manifest of the project root loads and names a language. */
  predicate IsGaugeProject(manifest: Result<Manifest, string>) {
    manifest.Ok? && manifest.value.language != ""
  }

  // ---------------------------------------------------------------------------------
  // The entry points, as functions of what the collaborators answer
  // ---------------------------------------------------------------------------------

  /** What the collaborators answer during one invocation. */
  datatype Host = Host(
    getwd: Result<string, string>,
    manifestAt: string -> Result<Manifest, string>,
    parse: UriParser,
    allowInsecure: bool,
    tempDir: string,
    fetched: Result<string, string>,
    env: Env,
    decode: Decoder)

  /** `validateDirectory`: whether it aborts. */
  function Validation(getwd: Result<string, string>, manifestAt: string -> Result<Manifest, string>): (a: Option<Abort>)
    ensures getwd.Err? ==> a == Some(NoWorkingDir(getwd.error))
    ensures getwd.Ok? ==> (a.Some? <==> IsGaugeProject(manifestAt(getwd.value)))
    ensures getwd.Ok? && a.Some? ==> a == Some(AlreadyProject)
  {
    if getwd.Err? then Some(NoWorkingDir(getwd.error))
    else if IsGaugeProject(manifestAt(getwd.value)) then Some(AlreadyProject)
    else None
  }

  /** The project root once `validateDirectory` has run. */
  function RootAfter(root: string, getwd: Result<string, string>): string {
    if getwd.Ok? then getwd.value else root
  }

  /** `initializeTemplate`: download and unzip into `tempDir`, copy, and always remove `tempDir`. */
  function Initialize(wd: string, url: string, tempDir: string, fetched: Result<string, string>,
                      env: Env, decode: Decoder): Run
  {
    var r := Unpacked(wd, fetched, env, decode);
    Run(r.err, [DownloadAndUnzip(url, tempDir)] + r.effects + [Remove(tempDir)])
  }

  /** What follows the download in `initializeTemplate`, before the deferred removal. */
  function Unpacked(wd: string, fetched: Result<string, string>, env: Env, decode: Decoder): Run {
    if fetched.Err? then Run(Some(DownloadFailed(fetched.error)), [])
    else Copy(wd, fetched.value, env, decode)
  }

  /**
   * `initializeTemplate` downloads first and removes the temporary directory last, whether
   * the download, the copy, or nothing failed; its error is the download's or the copy's.
   */
  lemma InitializeCleansUp(wd: string, url: string, tempDir: string, fetched: Result<string, string>,
                           env: Env, decode: Decoder)
    ensures var r := Initialize(wd, url, tempDir, fetched, env, decode);
            && |r.effects| >= 2
            && r.effects[0] == DownloadAndUnzip(url, tempDir)
            && r.effects[|r.effects| - 1] == Remove(tempDir)
    ensures var r := Initialize(wd, url, tempDir, fetched, env, decode);
            fetched.Err? ==> r.err == Some(DownloadFailed(fetched.error)) && |r.effects| == 2
    ensures var r := Initialize(wd, url, tempDir, fetched, env, decode);
            fetched.Ok? ==> r.err == Copy(wd, fetched.value, env, decode).err
  {
  }

  /** `checkURL`, then `initializeTemplate`, in the project root `wd`. */
  function Download(wd: string, url: string, h: Host): Ending {
    match CheckUrl(url, h.parse, h.allowInsecure)
    case Some(a) => Ending(Some(a), [])
    case None =>
      var r := Initialize(wd, url, h.tempDir, h.fetched, h.env, h.decode);
      Ending(if r.err.Some? then Some(InitFailed(r.err.value)) else None, r.effects)
  }

  /** `FromURL`. */
  function FromUrlRun(url: string, h: Host): Ending {
    match Validation(h.getwd, h.manifestAt)
    case Some(a) => Ending(Some(a), [])
    case None => Download(h.getwd.value, url, h)
  }

  /** What `template.Get` answers for `name`. */
  ghost function Located(name: string, loaded: Option<map<string, string>>, closestN: Template.Matcher)
    : Result<string, Template.TemplateError>
  {
    var m := Template.MergedMap(loaded);
    if name in m then Ok(m[name].value)
    else Err(Template.NotFound(name, Template.Suggestions(closestN(SortedKeys(m.Keys), name, 5))))
  }

  /** `FromTemplate`. */
  ghost function FromTemplateRun(name: string, loaded: Option<map<string, string>>,
                                 closestN: Template.Matcher, h: Host): Ending
  {
    match Validation(h.getwd, h.manifestAt)
    case Some(a) => Ending(Some(a), [])
    case None =>
      match Located(name, loaded, closestN)
      case Err(e) => Ending(Some(TemplateUnavailable(e)), [])
      case Ok(url) => Download(h.getwd.value, url, h)
  }

  /**
   * `FromZipFile` as written: the temporary directory is removed by a deferred call, which
   * does not run when `logger.Fatalf` ends the process.
   */
  function FromZipFileRun(file: string, h: Host): Ending {
    match Validation(h.getwd, h.manifestAt)
    case Some(a) => Ending(Some(a), [])
    case None =>
      var unzip := [UnzipArchive(file, h.tempDir)];
      if h.fetched.Err? then Ending(Some(UnzipFailed(h.fetched.error)), unzip)
      else
        var copied := Copy(h.getwd.value, h.fetched.value, h.env, h.decode);
        if copied.err.Some? then Ending(Some(InitFailed(copied.err.value)), unzip + copied.effects)
        else Ending(None, unzip + copied.effects + [Remove(h.tempDir)])
  }

  /** `FromZipFile` with the temporary directory removed before the invocation ends, however it ends. */
  function ScopedFromZipFileRun(file: string, h: Host): Ending {
    match Validation(h.getwd, h.manifestAt)
    case Some(a) => Ending(Some(a), [])
    case None =>
      var unzip := [UnzipArchive(file, h.tempDir)];
      if h.fetched.Err? then Ending(Some(UnzipFailed(h.fetched.error)), unzip + [Remove(h.tempDir)])
      else
        var copied := Copy(h.getwd.value, h.fetched.value, h.env, h.decode);
        Ending(if copied.err.Some? then Some(InitFailed(copied.err.value)) else None,
               unzip + copied.effects + [Remove(h.tempDir)])
  }

  /** In a directory that already is a Gauge project, no entry point does anything but abort. */
  lemma AlreadyProjectDoesNothing(url: string, file: string, name: string,
                                  loaded: Option<map<string, string>>, closestN: Template.Matcher, h: Host)
    requires h.getwd.Ok? && IsGaugeProject(h.manifestAt(h.getwd.value))
    ensures FromUrlRun(url, h) == Ending(Some(AlreadyProject), [])
    ensures FromTemplateRun(name, loaded, closestN, h) == Ending(Some(AlreadyProject), [])
    ensures FromZipFileRun(file, h) == Ending(Some(AlreadyProject), [])
  {
  }

  /**
   * `FromURL` downloads only a location that passed `checkURL`; then its first call is the
   * download and its last the removal of the temporary directory, whatever happened between.
   */
  lemma UrlCheckedBeforeDownload(url: string, h: Host)
    ensures var e := FromUrlRun(url, h);
            e.effects != [] <==>
              Validation(h.getwd, h.manifestAt).None? && CheckUrl(url, h.parse, h.allowInsecure).None?
    ensures var e := FromUrlRun(url, h);
            e.effects != [] ==>
              e.effects[0] == DownloadAndUnzip(url, h.tempDir) && e.effects[|e.effects| - 1] == Remove(h.tempDir)
    ensures var e := FromUrlRun(url, h);
            e.abort.None? ==> Copy(h.getwd.value, h.fetched.value, h.env, h.decode).err.None? && h.fetched.Ok?
  {
    if Validation(h.getwd, h.manifestAt).None? {
      InitializeCleansUp(h.getwd.value, url, h.tempDir, h.fetched, h.env, h.decode);
    }
  }

  /**
   * `FromTemplate` downloads the location the registry holds for the name, once it passed
   * `checkURL`, and removes the temporary directory afterwards; an unknown name aborts
   * with the registry's error before anything is done.
   */
  lemma TemplateDownloadsLocated(name: string, loaded: Option<map<string, string>>,
                                 closestN: Template.Matcher, h: Host)
    requires Validation(h.getwd, h.manifestAt).None?
    ensures var e := FromTemplateRun(name, loaded, closestN, h);
            name !in Template.MergedMap(loaded) ==>
              && e.effects == []
              && e.abort == Some(TemplateUnavailable(Template.NotFound(name,
                   Template.Suggestions(closestN(SortedKeys(Template.MergedMap(loaded).Keys), name, 5)))))
    ensures var e := FromTemplateRun(name, loaded, closestN, h);
            e.effects != [] ==>
              && name in Template.MergedMap(loaded)
              && e.effects[0] == DownloadAndUnzip(Template.MergedMap(loaded)[name].value, h.tempDir)
              && e.effects[|e.effects| - 1] == Remove(h.tempDir)
  {
    var m := Template.MergedMap(loaded);
    if name in m {
      InitializeCleansUp(h.getwd.value, m[name].value, h.tempDir, h.fetched, h.env, h.decode);
    }
  }

  /** A host whose archive cannot be unzipped, in a fresh directory. */
  function BrokenArchiveHost(): Host {
    Host(Ok("/work"), (root: string) => Err("no manifest"), (url: string) => None, false,
         "/tmp/t", Err("not a zip archive"),
         Env([], false, None, Ok([]), Ok(""), None, None),
         (text: string) => Err("empty"))
  }

  /**
   * As written, an aborting `FromZipFile` never adds the removal of its temporary directory:
   * a failed unzip ends after the unzip call, and a failed copy after the copy's calls.
   */
  lemma ZipAbortLeavesTempDir(file: string, h: Host)
    requires Validation(h.getwd, h.manifestAt).None?
    ensures var e := FromZipFileRun(file, h);
            h.fetched.Err? ==>
              && e.abort == Some(UnzipFailed(h.fetched.error))
              && e.effects == [UnzipArchive(file, h.tempDir)]
              && Remove(h.tempDir) !in e.effects
    ensures var e := FromZipFileRun(file, h);
            h.fetched.Ok? ==>
              var copied := Copy(h.getwd.value, h.fetched.value, h.env, h.decode);
              copied.err.Some? ==>
                && e.abort == Some(InitFailed(copied.err.value))
                && e.effects == [UnzipArchive(file, h.tempDir)] + copied.effects
                && (Remove(h.tempDir) in e.effects ==> Remove(h.tempDir) in copied.effects)
  {
  }

  /** A concrete instance: an archive that does not unzip, in a fresh directory. */
  lemma BrokenArchiveLeavesTempDir()
    ensures FromZipFileRun("t.zip", BrokenArchiveHost()).abort.Some?
    ensures Remove(BrokenArchiveHost().tempDir) !in FromZipFileRun("t.zip", BrokenArchiveHost()).effects
  {
    var h := BrokenArchiveHost();
    assert !IsGaugeProject(h.manifestAt("/work"));
    assert FromZipFileRun("t.zip", h).effects == [UnzipArchive("t.zip", "/tmp/t")];
  }

  /**
   * With the removal scoped to the invocation, the temporary directory is removed last
   * whenever it was used, and the outcome is that of `FromZipFile` as written.
   */
  lemma ScopedZipRemovesTempDir(file: string, h: Host)
    ensures var e := ScopedFromZipFileRun(file, h);
            e.effects != [] ==>
              e.effects[0] == UnzipArchive(file, h.tempDir) && e.effects[|e.effects| - 1] == Remove(h.tempDir)
    ensures ScopedFromZipFileRun(file, h).abort == FromZipFileRun(file, h).abort
    ensures var e := ScopedFromZipFileRun(file, h);
            e.effects != [] <==> Validation(h.getwd, h.manifestAt).None?
  {
  }

  // ---------------------------------------------------------------------------------
  // The workspace: the project root and the calls made so far
  // ---------------------------------------------------------------------------------

  /** `config.ProjectRoot` and the calls the package has made on its collaborators. */
  class Workspace {
    var root: string
    var log: seq<Effect>

    constructor (root0: string)
      ensures root == root0 && log == []
    {
      root := root0;
      log := [];
    }

    /** `validateDirectory`: set the project root, then refuse a directory that is a Gauge project. */
    method ValidateDirectory(getwd: Result<string, string>, manifestAt: string -> Result<Manifest, string>)
      returns (abort: Option<Abort>)
      modifies this
      ensures root == RootAfter(old(root), getwd)
      ensures abort == Validation(getwd, manifestAt)
      ensures log == old(log)
    {
      if getwd.Err? {
        return Some(NoWorkingDir(getwd.error));
      }
      root := getwd.value;
      if IsGaugeProject(manifestAt(root)) {
        return Some(AlreadyProject);
      }
      return None;
    }

    /** `copyTemplateContents` of the unzipped template into the project root. */
    method CopyTemplateContents(unzipped: string, env: Env, decode: Decoder) returns (err: Option<InitError>)
      modifies this
      ensures root == old(root)
      ensures err == Copy(root, unzipped, env, decode).err
      ensures log == old(log) + Copy(root, unzipped, env, decode).effects
    {
      var templateDir, walkError := GetTemplateDir(env.walk);
      if walkError.Some? {
        return Some(NoTemplateDir(unzipped, walkError.value));
      }
      if env.gitignoreExists {
        var templateGitignore := PathJoin(templateDir, Gitignore);
        log := log + [AppendToFile(Gitignore, templateGitignore)];
        if env.appendError.Some? {
          return Some(AppendFailed(env.appendError.value));
        }
      }
      err := MirrorStep(templateDir, env, decode);
    }

    /** The middle of `copyTemplateContents`: mirror the template into the project root. */
    method MirrorStep(templateDir: string, env: Env, decode: Decoder) returns (err: Option<InitError>)
      modifies this
      ensures root == old(root)
      ensures err == Step(root, env, decode, MirrorTemplate(templateDir)).err
      ensures log == old(log) + Step(root, env, decode, MirrorTemplate(templateDir)).effects
    {
      log := log + [MirrorDir(templateDir, root)];
      if env.mirrored.Err? {
        return Some(MirrorFailed(env.mirrored.error));
      }
      err := ReadStep(env.mirrored.value, env, decode);
    }

    /** Read the template's `metadata.json`, then decode it. */
    method ReadStep(filesAdded: seq<string>, env: Env, decode: Decoder) returns (err: Option<InitError>)
      modifies this
      ensures root == old(root)
      ensures err == Step(root, env, decode, ReadMetadata(filesAdded)).err
      ensures log == old(log) + Step(root, env, decode, ReadMetadata(filesAdded)).effects
    {
      var metadataFile := PathJoin(root, MetadataFile);
      log := log + [ReadFile(metadataFile)];
      if env.metadata.Err? {
        return Some(ReadFailed(metadataFile, env.metadata.error));
      }
      err := DecodeStep(filesAdded, env.metadata.value, env, decode);
    }

    /** Decode the metadata read, then run its post-install step. */
    method DecodeStep(filesAdded: seq<string>, contents: string, env: Env, decode: Decoder)
      returns (err: Option<InitError>)
      modifies this
      ensures root == old(root)
      ensures err == Step(root, env, decode, DecodeMetadata(filesAdded, contents)).err
      ensures log == old(log) + Step(root, env, decode, DecodeMetadata(filesAdded, contents)).effects
    {
      var decoded := decode(contents);
      if decoded.Err? {
        return Some(DecodeFailed(decoded.error));
      }
      err := PostInstallStep(filesAdded, decoded.value, env, decode);
    }

    /**
     * The end of `copyTemplateContents`: run the post-install command, if any, rolling back
     * the copied top-level entries when it cannot be launched; on success remove `metadata.json`.
     */
    method PostInstallStep(filesAdded: seq<string>, metadata: Metadata, env: Env, decode: Decoder) returns (err: Option<InitError>)
      modifies this
      ensures root == old(root)
      ensures err == Step(root, env, decode, AfterDecoding(filesAdded, metadata.postInstallCmd)).err
      ensures log == old(log) + Step(root, env, decode, AfterDecoding(filesAdded, metadata.postInstallCmd)).effects
    {
      if metadata.postInstallCmd != "" {
        err := LaunchCommand(filesAdded, metadata.postInstallCmd, env, decode);
      } else {
        assert Step(root, env, decode, Cleanup) == Run(None, [Remove(PathJoin(root, MetadataFile))]);
        log := log + [Remove(PathJoin(root, MetadataFile))];
        err := None;
      }
    }

    /** Launch the post-install command and wait for it; roll back if it cannot be launched. */
    method LaunchCommand(filesAdded: seq<string>, command: string, env: Env, decode: Decoder)
      returns (err: Option<InitError>)
      modifies this
      ensures root == old(root)
      ensures err == Step(root, env, decode, Launch(filesAdded, command)).err
      ensures log == old(log) + Step(root, env, decode, Launch(filesAdded, command)).effects
    {
      LaunchStep(root, env, decode, filesAdded, command);
      var run := Execute(Fields(command), root);
      log := log + [run];
      if env.launchError.Some? {
        RemoveAdded(filesAdded);
        assert log == old(log) + ([run] + Rollback(root, filesAdded));
        return Some(LaunchFailed(env.launchError.value));
      }
      log := log + [Wait];
      if env.waitError.Some? {
        return Some(WaitFailed(env.waitError.value));
      }
      log := log + [Remove(PathJoin(root, MetadataFile))];
      return None;
    }

    /** The rollback loop: remove the top-level entry of every added file from the project root. */
    method RemoveAdded(filesAdded: seq<string>)
      modifies this
      ensures root == old(root)
      ensures log == old(log) + Rollback(root, filesAdded)
    {
      var i := 0;
      while i < |filesAdded|
        invariant 0 <= i <= |filesAdded|
        invariant root == old(root)
        invariant log == old(log) + Rollback(root, filesAdded[..i])
      {
        var segment := FirstSegment(filesAdded[i]);
        assert filesAdded[..i + 1][..i] == filesAdded[..i];
        log := log + [Remove(PathJoin(root, segment))];
        i := i + 1;
      }
      assert filesAdded[..|filesAdded|] == filesAdded;
    }

    /** `initializeTemplate`: download, copy, and remove the temporary directory on the way out. */
    method InitializeTemplate(url: string, tempDir: string, fetched: Result<string, string>,
                              env: Env, decode: Decoder)
      returns (err: Option<InitError>)
      modifies this
      ensures root == old(root)
      ensures err == Initialize(root, url, tempDir, fetched, env, decode).err
      ensures log == old(log) + Initialize(root, url, tempDir, fetched, env, decode).effects
    {
      log := log + [DownloadAndUnzip(url, tempDir)];
      ghost var before := log;
      if fetched.Err? {
        err := Some(DownloadFailed(fetched.error));
      } else {
        err := CopyTemplateContents(fetched.value, env, decode);
      }
      assert err == Unpacked(root, fetched, env, decode).err;
      assert log == before + Unpacked(root, fetched, env, decode).effects;
      log := log + [Remove(tempDir)];
    }

    /** `checkURL`, then `initializeTemplate`; a failure aborts. */
    method Fetch(url: string, h: Host) returns (abort: Option<Abort>)
      modifies this
      ensures root == old(root)
      ensures abort == Download(root, url, h).abort
      ensures log == old(log) + Download(root, url, h).effects
    {
      abort := CheckUrl(url, h.parse, h.allowInsecure);
      if abort.Some? {
        return;
      }
      var err := InitializeTemplate(url, h.tempDir, h.fetched, h.env, h.decode);
      if err.Some? {
        return Some(InitFailed(err.value));
      }
    }

    /** `FromURL`; the runner installation that follows success is not modelled. */
    method FromUrl(url: string, h: Host) returns (abort: Option<Abort>)
      modifies this
      ensures root == RootAfter(old(root), h.getwd)
      ensures abort == FromUrlRun(url, h).abort
      ensures log == old(log) + FromUrlRun(url, h).effects
    {
      abort := ValidateDirectory(h.getwd, h.manifestAt);
      if abort.Some? {
        return;
      }
      abort := Fetch(url, h);
    }

    /** `FromTemplate`: the location comes from the merged template registry. */
    method FromTemplate(name: string, loaded: Option<map<string, string>>, closestN: Template.Matcher, h: Host)
      returns (abort: Option<Abort>)
      modifies this
      ensures root == RootAfter(old(root), h.getwd)
      ensures abort == FromTemplateRun(name, loaded, closestN, h).abort
      ensures log == old(log) + FromTemplateRun(name, loaded, closestN, h).effects
    {
      abort := ValidateDirectory(h.getwd, h.manifestAt);
      if abort.Some? {
        return;
      }
      var location := Template.Get(name, loaded, h.parse, closestN);
      if location.Err? {
        return Some(TemplateUnavailable(location.error));
      }
      abort := Fetch(location.value, h);
    }

    /** `FromZipFile`, as written: see `FromZipFileRun`. */
    method FromZipFile(file: string, h: Host) returns (abort: Option<Abort>)
      modifies this
      ensures root == RootAfter(old(root), h.getwd)
      ensures abort == FromZipFileRun(file, h).abort
      ensures log == old(log) + FromZipFileRun(file, h).effects
    {
      abort := ValidateDirectory(h.getwd, h.manifestAt);
      if abort.Some? {
        return;
      }
      log := log + [UnzipArchive(file, h.tempDir)];
      if h.fetched.Err? {
        return Some(UnzipFailed(h.fetched.error));
      }
      var err := CopyTemplateContents(h.fetched.value, h.env, h.decode);
      if err.Some? {
        return Some(InitFailed(err.value));
      }
      log := log + [Remove(h.tempDir)];
    }
  }
}
