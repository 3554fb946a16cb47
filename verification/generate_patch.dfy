/**
 * The `gitDiffPatchGenerator.generatePatch` command of src/extension.ts: from the active diff
 * tab to the patch command, the directory it runs in, and the messages shown afterwards.
 *
 * The editor is a parameter: the tab as the editor describes it, and a `Host` that answers which
 * workspace folder holds a file and what `path.relative` gives. Running the command is a
 * parameter too: its error message, if it failed.
 */
module GeneratePatch {
  import opened Wrappers
  import opened LabelPattern
  import opened PathNames
  import opened PatchNames
  import ShellWords
  import GitCommand
  import I18n
  import RegexChars

  /** The input of a text-diff tab: whether it has an original side, and the file path of its
      modified side if it has one. */
  datatype DiffInput = DiffInput(hasOriginal: bool, modifiedPath: Option<string>)

  /** The active tab: its label, its diff input, and the file path of its resource. */
  datatype Tab = Tab(tabLabel: string, input: Option<DiffInput>, resourcePath: Option<string>)

  /** What the command asks of the editor and of Node's `path` module. */
  datatype Host = Host(
    platform: Platform,
    workspaceRootOf: string -> Option<string>,
    relative: (string, string) -> string)

  /** The four ways the command gives up, in the order it checks them. */
  datatype Abort = NoTab | ParseCommitFail | GetFilePathFail | GetWorkspaceFail

  /** The patch command and where it runs. */
  datatype Plan = Plan(cwd: string, relPath: string, fileName: string, outPath: string, command: string)

  /** The file being compared: the modified side of a diff that has both sides, else the tab's
      resource. */
  function DiffFilePath(tab: Tab): (r: Option<string>)
    ensures r.Some? <==>
      (tab.input.Some? && tab.input.value.hasOriginal && tab.input.value.modifiedPath.Some?)
      || tab.resourcePath.Some?
    ensures tab.input.Some? && tab.input.value.hasOriginal && tab.input.value.modifiedPath.Some?
      ==> r == tab.input.value.modifiedPath
    ensures !(tab.input.Some? && tab.input.value.hasOriginal && tab.input.value.modifiedPath.Some?)
      ==> r == tab.resourcePath
  {
    match tab.input
    case Some(DiffInput(true, Some(path))) => Some(path)
    case _ => tab.resourcePath
  }

  ghost predicate HasLabel(tab: Option<Tab>) {
    tab.Some? && tab.value.tabLabel != ""
  }

  ghost predicate LabelMatches(tab: Option<Tab>) {
    HasLabel(tab) && exists m :: IsMatch(tab.value.tabLabel, m)
  }

  ghost predicate HasFilePath(tab: Option<Tab>) {
    LabelMatches(tab) && DiffFilePath(tab.value).Some?
  }

  ghost predicate InWorkspace(tab: Option<Tab>, host: Host) {
    HasFilePath(tab) && host.workspaceRootOf(DiffFilePath(tab.value).value).Some?
  }

  /**
   * What a successful run sets up, for a file at path inside workspace root: the patch of the
   * label's two commits is named after the file and written to the workspace root joined with
   * that name, and the command is the source's `git diff` line for those commits, that relative
   * path and that patch. When neither path holds `"`, `\`, `$` or a backquote the shell runs
   * exactly that, whatever its variables hold.
   */
  ghost predicate IsPlanFor(text: string, path: string, root: string, host: Host, p: Plan) {
    exists m :: IsJsMatch(text, m) &&
      var (hash1, hash2) := Captures(text, m);
      && p.cwd == root
      && p.relPath == host.relative(root, path)
      && p.fileName == PatchFileName(Basename(host.platform, path), hash1, hash2)
      && p.outPath == Join(host.platform, root, p.fileName)
      && (root != [] || !HasDrivePrefix(host.platform, p.fileName)
          ==> Basename(host.platform, p.outPath) == p.fileName)
      && p.command == GitCommand.GitCommand(hash1, hash2, p.relPath, p.outPath)
      && (ShellWords.HasNoQuoteSpecial(p.relPath) && ShellWords.HasNoQuoteSpecial(p.outPath)
          ==> forall env :: ShellWords.ReadCommand(env, p.command)
                          == Some(GitCommand.IntendedInvocation(hash1, hash2, p.relPath, p.outPath)))
  }

  /** A patch file name is one path segment. */
  lemma PatchFileNameIsSegment(p: Platform, base: string, hash1: string, hash2: string)
    requires IsSegment(p, base) && IsHash(hash1) && IsHash(hash2)
    ensures IsSegment(p, PatchFileName(base, hash1, hash2))
  {
    var name := PatchFileName(base, hash1, hash2);
    forall i | 0 <= i < |name| ensures !IsSeparator(p, name[i]) {
      if i < |base| {
        assert name[i] == base[i];
      } else if |base| < i < |base| + 1 + |hash1| {
        assert name[i] == hash1[i - |base| - 1];
        assert RegexChars.IsWordChar(hash1[i - |base| - 1]);
      } else if |base| + 1 + |hash1| < i < |name| - 6 {
        assert name[i] == hash2[i - |base| - 2 - |hash1|];
        assert RegexChars.IsWordChar(hash2[i - |base| - 2 - |hash1|]);
      } else if i >= |name| - 6 {
        assert name[i] == PatchSuffix[i - (|name| - 6)];
      }
    }
  }

  /** The plan built once every check has passed. */
  function MakePlan(host: Host, hash1: string, hash2: string, path: string, root: string): (p: Plan)
    requires IsHash(hash1) && IsHash(hash2)
    ensures p.cwd == root && p.relPath == host.relative(root, path)
    ensures p.fileName == PatchFileName(Basename(host.platform, path), hash1, hash2)
    ensures p.outPath == Join(host.platform, root, p.fileName)
    ensures root != [] || !HasDrivePrefix(host.platform, p.fileName)
      ==> Basename(host.platform, p.outPath) == p.fileName
    ensures p.command == GitCommand.GitCommand(hash1, hash2, p.relPath, p.outPath)
    ensures ShellWords.HasNoQuoteSpecial(p.relPath) && ShellWords.HasNoQuoteSpecial(p.outPath)
      ==> forall env :: ShellWords.ReadCommand(env, p.command)
                      == Some(GitCommand.IntendedInvocation(hash1, hash2, p.relPath, p.outPath))
  {
    var rel := host.relative(root, path);
    var name := PatchFileName(Basename(host.platform, path), hash1, hash2);
    PatchFileNameIsSegment(host.platform, Basename(host.platform, path), hash1, hash2);
    var out := Join(host.platform, root, name);
    Plan(root, rel, name, out, GitCommand.GitCommand(hash1, hash2, rel, out))
  }

  /**
   * The plan with both paths escaped for double quotes: the same in every other part, and the
   * shell runs the intended `git diff` whatever the paths hold. On paths without special
   * characters it is the source's plan.
   */
  function MakeEscapedPlan(host: Host, hash1: string, hash2: string, path: string, root: string): (p: Plan)
    requires IsHash(hash1) && IsHash(hash2)
    ensures p == MakePlan(host, hash1, hash2, path, root).(command := p.command)
    ensures forall env :: ShellWords.ReadCommand(env, p.command)
                        == Some(GitCommand.IntendedInvocation(hash1, hash2, p.relPath, p.outPath))
    ensures ShellWords.HasNoQuoteSpecial(p.relPath) && ShellWords.HasNoQuoteSpecial(p.outPath)
      ==> p == MakePlan(host, hash1, hash2, path, root)
  {
    var q := MakePlan(host, hash1, hash2, path, root);
    EscapedCommandReadsBack(hash1, hash2, q.relPath, q.outPath);
    q.(command := GitCommand.GitCommandQuoted(hash1, hash2, q.relPath, q.outPath))
  }

  lemma EscapedCommandReadsBack(hash1: string, hash2: string, rel: string, out: string)
    requires IsHash(hash1) && IsHash(hash2)
    ensures forall env :: ShellWords.ReadCommand(env, GitCommand.GitCommandQuoted(hash1, hash2, rel, out))
                        == Some(GitCommand.IntendedInvocation(hash1, hash2, rel, out))
  {
    forall env
      ensures ShellWords.ReadCommand(env, GitCommand.GitCommandQuoted(hash1, hash2, rel, out))
           == Some(GitCommand.IntendedInvocation(hash1, hash2, rel, out))
    {
      GitCommand.QuotedCommandReadsBack(env, hash1, hash2, rel, out);
    }
  }

  /**
   * The command up to running git: it stops at the first check that fails, in the order tab
   * label, commit hashes, file path, workspace.
   */
  function PlanPatch(tab: Option<Tab>, host: Host): (r: Result<Plan, Abort>)
    ensures r == Failure(NoTab) <==> !HasLabel(tab)
    ensures r == Failure(ParseCommitFail) <==> HasLabel(tab) && !LabelMatches(tab)
    ensures r == Failure(GetFilePathFail) <==> LabelMatches(tab) && !HasFilePath(tab)
    ensures r == Failure(GetWorkspaceFail) <==> HasFilePath(tab) && !InWorkspace(tab, host)
    ensures r.Success? <==> InWorkspace(tab, host)
    ensures r.Success? ==>
      var path := DiffFilePath(tab.value).value;
      IsPlanFor(tab.value.tabLabel, path, host.workspaceRootOf(path).value, host, r.value)
  {
    if tab.None? || tab.value.tabLabel == "" then Failure(NoTab)
    else
      match ParseLabel(tab.value.tabLabel)
      case None => Failure(ParseCommitFail)
      case Some((hash1, hash2)) =>
        match DiffFilePath(tab.value)
        case None => Failure(GetFilePathFail)
        case Some(path) =>
          match host.workspaceRootOf(path)
          case None => Failure(GetWorkspaceFail)
          case Some(root) => Success(MakePlan(host, hash1, hash2, path, root))
  }

  /** The catalog key of each abort's message. */
  function AbortKey(a: Abort): I18n.Key {
    match a
    case NoTab => I18n.NoTab
    case ParseCommitFail => I18n.ParseCommitFail
    case GetFilePathFail => I18n.GetFilePathFail
    case GetWorkspaceFail => I18n.GetWorkspaceFail
  }

  /** The error shown on an abort; the command writes the Chinese catalog text in place. */
  function AbortNotice(a: Abort): (text: string)
    ensures text == I18n.Message(I18n.ZhCn, AbortKey(a)).text
    ensures text == I18n.GetI18nText("zh-cn", AbortKey(a), [])
  {
    match a
    case NoTab => "未能获取当前标签信息。"
    case ParseCommitFail => "未能从标签解析出 commit 哈希。"
    case GetFilePathFail => "未能获取对比文件路径。"
    case GetWorkspaceFail => "未能定位到工作区。"
  }

  /** The information shown when the patch was written. */
  function SuccessNotice(fileName: string): (text: string)
    ensures text == I18n.GetI18nText("zh-cn", I18n.PatchGenerated, [fileName])
  {
    "Patch 文件已生成: " + fileName
  }

  /** The error shown when git or the shell failed. */
  function FailureNotice(message: string): (text: string)
    ensures text == I18n.GetI18nText("zh-cn", I18n.PatchFailed, []) + ": " + message
  {
    "生成 patch 失败: " + message
  }

  /** What the command does, in order. */
  datatype Effect =
    | ShowError(text: string)
    | ShowInfo(text: string)
    | RunShell(command: string, cwd: string)
    | RevealInOS(path: string)

  /**
   * What the user sees after the checks: the error of an abort, or the patch command followed by
   * the shell's error or by the information and the patch file revealed. `execError` is the error
   * the shell command ends with, if any.
   */
  function Effects(planned: Result<Plan, Abort>, execError: Option<string>): (effects: seq<Effect>)
    ensures planned.Failure? ==>
      effects == [ShowError(I18n.Message(I18n.ZhCn, AbortKey(planned.error)).text)]
    ensures planned.Success? ==>
      && |effects| >= 2 && effects[0] == RunShell(planned.value.command, planned.value.cwd)
      && (execError.Some? ==> effects[1..] == [ShowError(FailureNotice(execError.value))])
      && (execError.None? ==>
            effects[1..] == [ShowInfo(I18n.GetI18nText("zh-cn", I18n.PatchGenerated, [planned.value.fileName])),
                             RevealInOS(planned.value.outPath)])
  {
    match planned
    case Failure(a) => [ShowError(AbortNotice(a))]
    case Success(p) =>
      [RunShell(p.command, p.cwd)]
      + match execError
        case Some(message) => [ShowError(FailureNotice(message))]
        case None => [ShowInfo(SuccessNotice(p.fileName)), RevealInOS(p.outPath)]
  }

  /**
   * One run of the command: the shell runs, in the workspace folder of the compared file, only
   * when every check passed; otherwise the run is a single error message.
   */
  function Handle(tab: Option<Tab>, host: Host, execError: Option<string>): (effects: seq<Effect>)
    ensures |effects| >= 1
    ensures effects[0].RunShell? <==> InWorkspace(tab, host)
    ensures InWorkspace(tab, host) ==>
      effects[0].cwd == host.workspaceRootOf(DiffFilePath(tab.value).value).value
    ensures !InWorkspace(tab, host) ==> |effects| == 1 && effects[0].ShowError?
  {
    Effects(PlanPatch(tab, host), execError)
  }

  /** A file is revealed only after the patch command succeeded, and it is the patch written. */
  lemma RevealedIsThePatch(planned: Result<Plan, Abort>, execError: Option<string>, i: nat)
    requires i < |Effects(planned, execError)| && Effects(planned, execError)[i].RevealInOS?
    ensures execError.None? && planned.Success?
    ensures i == 2 && Effects(planned, execError)[i].path == planned.value.outPath
  {
    var effects := Effects(planned, execError);
    if planned.Success? && execError.None? {
      assert effects[1..] == [ShowInfo(SuccessNotice(planned.value.fileName)), RevealInOS(planned.value.outPath)];
    }
  }

  /** Exactly one message reaches the user on every run. */
  lemma OneMessagePerRun(planned: Result<Plan, Abort>, execError: Option<string>)
    ensures var effects := Effects(planned, execError);
      |set i | 0 <= i < |effects| && (effects[i].ShowError? || effects[i].ShowInfo?)| == 1
  {
    var effects := Effects(planned, execError);
    var shown := set i | 0 <= i < |effects| && (effects[i].ShowError? || effects[i].ShowInfo?);
    if planned.Failure? {
      assert shown == {0};
    } else {
      assert effects[0].RunShell? && effects[1] == effects[1..][0];
      assert shown == {1};
    }
  }

  /**
   * A tab whose label has the editor's diff shape `<file> (<hash1>) ↔ <file> (<hash2>)` gets the
   * plan for exactly those two commits, in that order.
   */
  lemma DiffTabPlan(tab: Tab, host: Host, file1: string, hash1: string, file2: string, hash2: string)
    requires tab.tabLabel == DiffLabel(file1, hash1, file2, hash2)
    requires IsHash(hash1) && IsHash(hash2)
    requires forall i :: 0 <= i < |file1| ==> file1[i] != '('
    requires forall i :: 0 <= i < |file2| ==> !RegexChars.IsLineTerminator(file2[i])
    requires DiffFilePath(tab).Some? && host.workspaceRootOf(DiffFilePath(tab).value).Some?
    ensures var path := DiffFilePath(tab).value;
      var root := host.workspaceRootOf(path).value;
      PlanPatch(Some(tab), host) == Success(MakePlan(host, hash1, hash2, path, root))
      && PlanPatch(Some(tab), host).value.fileName
         == PatchFileName(Basename(host.platform, path), hash1, hash2)
  {
    DiffLabelParses(file1, hash1, file2, hash2);
  }
}
