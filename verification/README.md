# Git Diff Patch Generator, modelled in Dafny

A model of the one command of the VS Code extension *Git Diff Patch Generator*,
`gitDiffPatchGenerator.generatePatch`, and of its message catalog. The command runs on the active
diff tab, whose label reads like `auxiliaryBarPart.css (24a2f307) ↔ auxiliaryBarPart.css (22d1bfc7)`.
It takes the two commit ids from the label. It finds the compared file and its workspace folder.
It names a patch file `<file>.<hash1>_<hash2>.patch` in the workspace root. Then it runs
`git diff <hash1> <hash2> -- "<relative path>" > "<patch path>"` through the shell. At each step
where it cannot go on, it shows an error and stops.

Modules, one per file:

- `Wrappers`: `Option` and `Result`.
- `RegexChars`: the JavaScript character classes `\w` and `\s`, the line terminators that `.` does not cross, and `↔`.
- `LabelPattern`: the label pattern `\((\w{7,40})\)\s*↔\s*.*\((\w{7,40})\)`.
  - `IsMatch` describes declaratively where the pattern matches.
  - `IsJsMatch` is the one match JavaScript reports: the leftmost start, then the greedy `.*`.
  - `ParseLabel` is a scanner proved sound and complete against both.
- `PathNames`: Node's `path.basename` and `path.join`, for a directory and a single file name, on POSIX and Windows separators, with the Windows drive prefix `C:` that `basename` looks past.
- `PatchNames`: the patch file name and the reading of a name back into its three parts.
- `ShellWords`: how `/bin/sh` splits the command line into arguments and an output redirection.
  - It covers only the fragment the command needs: blanks, bare words, double quotes with their backslash escapes (section 2.2.3 of the POSIX Shell Command Language), `$name` inside double quotes (section 2.6.2), and `>`.
  - The shell's variables, which `$name` is looked up in, are a parameter: a map from names to values.
  - An unquoted run of digits directly before `>` numbers the descriptor being redirected (the IO_NUMBER token of section 2.10.1); the reader leaves the fragment there instead of taking it as an argument.
- `GitCommand`: the command line as written, and with the paths escaped.
- `GeneratePatch`: the command's chain of checks, the plan it runs, and the messages it shows.
  - The editor is a parameter: the tab, which workspace folder holds a file, and `path.relative`.
  - The shell's error is a parameter too.
- `I18n`: the two-locale catalog, `getLang` and `getI18nText`.

## Model

| member | source | states |
|---|---|---|
| LabelPattern.ParseLabel | src/extension.ts:17-23 | A result exists exactly when the pattern matches somewhere in the label. The pair returned is the two groups of the match JavaScript reports: leftmost start, then the rightmost second group on the arrow's line. Both are 7 to 40 word characters. |
| LabelPattern.MatchFrom | src/extension.ts:17 | The match found at or after a start position is a match. It begins no later than any other match there. Among matches with that start, its second group begins furthest right. None means no match starts at or after the position. |
| LabelPattern.JsMatchUnique | src/extension.ts:17 | The leftmost-then-greedy match is unique, so the reported groups are determined by the label. |
| LabelPattern.LineGapBound | src/extension.ts:17 | For a position holding a non-whitespace character, the gap `\s*.*` after the arrow can reach it exactly when it lies before the first line terminator after the arrow's whitespace run. |
| LabelPattern.CapturesAreHashes | src/extension.ts:17-23 | Both groups of any match have 7 to 40 characters from `[A-Za-z0-9_]`. |
| LabelPattern.HashHasNoShellMetacharacters | src/extension.ts:17-23 | An extracted hash holds no blank, quote, `>`, `$`, backquote or backslash. |
| LabelPattern.NoArrowNoParse | src/extension.ts:17-21 | A label without `↔` never parses. |
| LabelPattern.DiffLabelParses | src/extension.ts:15-23 | A label `<file1> (<hash1>) ↔ <file2> (<hash2>)` parses to (hash1, hash2), in order. Conditions: the hashes are 7 to 40 word characters, file1 holds no `(`, and file2 holds no line break. |
| LabelPattern.ExampleLabelParses | src/extension.ts:15-23 | The label in the source's comment yields ("24a2f307", "22d1bfc7"). |
| PathNames.Basename | src/extension.ts:47 | The base name is a single path segment. It is the last segment of the path once a Windows drive prefix and the trailing separators are set aside: it ends that text, and a separator precedes it unless it is all of it. A segment without a drive prefix is returned unchanged. |
| PathNames.Join | src/extension.ts:48 | The joined path is the root, then one separator exactly when the root is non-empty and does not already end in one, then the name. So the name sits directly in the root, neither in a subfolder nor over the root's tail. Its base name is the name again, for a non-empty segment, unless the root is empty and the name starts like a drive. |
| PathNames.JoinIsRootThenName | src/extension.ts:48 | The joined path is the root followed by the name, or the root, one separator and the name; the separator is there whenever the root is non-empty and does not end in one. |
| PatchNames.PatchFileName | src/extension.ts:47 | The name is the base, `.`, hash1, `_`, hash2 and `.patch`, each at its position. It always ends in `.patch`, with both hashes in order. |
| PatchNames.SplitPatchFileName | src/extension.ts:47 | Any split it returns reassembles into the same file name. |
| PatchNames.SplitPatchFileNameRoundTrip | src/extension.ts:47 | The name gives back its base and both hashes when neither hash holds `.` and the first holds no `_`. |
| PatchNames.UnderscoreHashesCollide | src/extension.ts:47 | Hashes with `_` make the name ambiguous: commits (h_k, j) and (h, k_j) give the same patch file. |
| ShellWords.ReadQuotedEscape | src/extension.ts:51-52 | Reading an escaped string inside double quotes gives back the original string, whatever follows the closing quote. |
| ShellWords.ReadCommandQuoted | src/extension.ts:51-52 | A quoted word followed by a blank adds exactly one argument, its unquoted text. |
| ShellWords.ReadCommandRedirect | src/extension.ts:51-52 | A final `> "<target>"` redirects standard output to the unquoted target and adds no argument. |
| ShellWords.ReadCommandDescriptor | src/extension.ts:51-52 | Unquoted digits directly before `>` are never an argument: `d>rest` and `git d>rest` leave the fragment, since the shell reads d as the descriptor to redirect. |
| ShellWords.EscapePlain | src/extension.ts:51 | Escaping changes nothing on text without `"`, `\`, `$` or backquote. |
| GitCommand.GitCommand | src/extension.ts:51 | For label hashes and paths without `"`, `\`, `$` or backquote, the line as written is the escaped line, and whatever its variables hold the shell runs `git diff h1 h2 -- rel` with standard output to the patch path. |
| ShellWords.ReadQuotedExpands | src/extension.ts:51-52 | Inside double quotes, `x$name y` reads as x, then the variable's value (nothing when it is unset), then y. Conditions: x and y hold none of `"`, `\`, `$` and backquote, name is a variable name, and y does not start with a letter, digit or `_` (otherwise the name would run on into y). |
| GitCommand.QuotedCommandReadsBack | src/extension.ts:51-52 | For every pair of paths, the shell reads the escaped command as `git diff h1 h2 -- rel` with standard output to the patch path. |
| GitCommand.AsWrittenSplitsPath | src/extension.ts:51-52 | As written, a relative path `x" "y` reaches git as the two paths x and y. This is never the intended single argument. Conditions: both hashes are 7 to 40 word characters, and x, y and the output path hold none of `"`, `\`, `$` and backquote. |
| GitCommand.AsWrittenSplitsQuotedPath | src/extension.ts:47-52 | As written, for any two commits, the workspace file `/ws/a" "b/c.css` reaches git as the two paths `a` and `b/c.css`, not as the intended single argument. Its patch path `/ws/c.css.<hash1>_<hash2>.patch` is the one line 48 builds for that file (`GitCommand.SplitExamplePatchPath`). |
| GitCommand.SplitExamplePatchPath | src/extension.ts:47-48 | For the workspace root `/ws` and the file `/ws/a" "b/c.css`, the patch path is `/ws/` followed by the patch file name of `c.css`. |
| GitCommand.AsWrittenExpandsVariable | src/extension.ts:51-52 | As written, a relative path `x$name y` reaches git as x, the variable's value, then y. Whenever that value is not the text `$name` itself, this is not the intended path. Conditions: both hashes are 7 to 40 word characters, x, y and the output path hold none of `"`, `\`, `$` and backquote, name is a variable name, and y does not start with a letter, digit or `_`. |
| GitCommand.AsWrittenExpandsBothPaths | src/extension.ts:51-52 | As written, when both the relative path `x$name y` and the patch path `ox$oname oy` hold a variable, git gets x, the value, then y, and the patch is written to ox, the value, then oy. Conditions: both hashes are 7 to 40 word characters, the text around each variable holds none of `"`, `\`, `$` and backquote, each name is a variable name, and the text after it does not start with a letter, digit or `_`. |
| GitCommand.AsWrittenDropsUnsetVariable | src/extension.ts:47-58 | As written, with `Bar` unset and for any two commits, the workspace file `/ws/Foo$Bar.css` is diffed as `Foo.css`, and the patch goes to `/ws/Foo.css.<hash1>_<hash2>.patch`, not to the `/ws/Foo$Bar.css.<hash1>_<hash2>.patch` that line 48 builds (`GitCommand.DollarExamplePatchPath`) and line 57 reveals. |
| GitCommand.DollarExamplePatchPath | src/extension.ts:47-48 | For the workspace root `/ws` and the file `/ws/Foo$Bar.css`, the patch path is `/ws/` followed by the patch file name of `Foo$Bar.css`. |
| GeneratePatch.DiffFilePath | src/extension.ts:26-37 | A file path exists exactly when the tab has a two-sided diff input with a modified side, or a resource. The diff input is preferred. |
| GeneratePatch.PlanPatch | src/extension.ts:10-52 | Each abort happens exactly when its check is the first to fail, in the order tab label, commit hashes, file path, workspace. Success happens exactly when all four pass. Then the plan runs in the workspace root. Its file name is the file's base name with the label's reported commits, and its output path is the workspace root joined with that name, so the patch is written directly in the root. Its command is the source's line for those commits and paths. When neither path holds `"`, `\`, `$` or backquote, the shell runs `git diff hash1 hash2 -- <relative path>` with output to that patch. |
| GeneratePatch.MakePlan | src/extension.ts:44-52 | The plan for found hashes, file and root. The output path is the root joined with the file name, so it lies directly in the root, and its base name is the file name unless the root is empty and the name starts like a drive. The command is the source's line, unescaped. On paths without `"`, `\`, `$` or backquote it runs the intended invocation whatever the shell's variables hold. |
| GeneratePatch.MakeEscapedPlan | src/extension.ts:51-52 | The corrected plan differs from the source's only in its command. The shell reads that command as the intended invocation for any paths, whatever its variables hold. On plain paths it is the source's plan. |
| GeneratePatch.PatchFileNameIsSegment | src/extension.ts:47-48 | A patch file name built from a base name and two hashes holds no path separator. |
| GeneratePatch.DiffTabPlan | src/extension.ts:15-48 | A tab labelled `<file1> (<hash1>) ↔ <file2> (<hash2>)` gets the plan for exactly hash1 and hash2, in that order, named after the compared file. Conditions: the hashes are 7 to 40 word characters, file1 holds no `(`, file2 holds no line break, and the compared file's path and its workspace folder are found. |
| GeneratePatch.AbortNotice | src/extension.ts:11-43 | Each error text the command writes in place is the zh-cn catalog text for the matching key. |
| GeneratePatch.SuccessNotice | src/extension.ts:56 | The information shown after success is the zh-cn `patchGenerated` message for the patch file name. |
| GeneratePatch.FailureNotice | src/extension.ts:54 | The error shown when the shell fails is the zh-cn `patchFailed` text, `: ` and the error message. |
| GeneratePatch.Effects | src/extension.ts:11-58 | An abort shows only its error. Otherwise the command runs in the workspace root, followed by either the failure message or the success message and the patch file revealed. |
| GeneratePatch.RevealedIsThePatch | src/extension.ts:55-57 | A file is revealed only when every check passed and the shell succeeded, and it is the patch path. |
| GeneratePatch.Handle | src/extension.ts:9-59 | A run always does something. The shell runs exactly when every check passed, and then in the workspace folder of the compared file. Otherwise the run is one error message. |
| GeneratePatch.OneMessagePerRun | src/extension.ts:11-58 | Every run shows exactly one message. |
| I18n.Message | src/i18n.ts:4-41 | Both catalogs have an entry for every one of the sixteen keys. An entry takes an argument exactly for `patchGenerated` and `patchFullGenerated`. |
| I18n.CatalogsAgree | src/i18n.ts:5-40 | The two catalogs agree on which keys take an argument. |
| I18n.ToLower | src/i18n.ts:44 | Lower-casing keeps the length, maps each character on its own, and leaves no ASCII capital. |
| I18n.ToLowerIdempotent | src/i18n.ts:44 | Lower-casing twice is lower-casing once. |
| I18n.GetLang | src/i18n.ts:43-47 | The Chinese catalog is chosen exactly when the first two characters are `z` and `h` in either case. Otherwise the English one is chosen. |
| I18n.GetLangIgnoresCase | src/i18n.ts:44-45 | Lower-casing the language first does not change the choice. |
| I18n.GetLangExamples | src/i18n.ts:44-46 | "ZH-TW", "zh" and "Zh-Hans" select zh-cn. "en-US", "z", "" and "ja" select en. |
| I18n.Render | src/i18n.ts:52-55 | A plain message is returned as is. A template gives its prefix followed by the first argument, or by `undefined` when called without one. |
| I18n.GetI18nText | src/i18n.ts:49-56 | A plain key gives the text of the selected catalog. A template key gives text starting with that catalog's prefix. |
| I18n.TemplateArgRecoverable | src/i18n.ts:49-56 | A template message determines its argument: two file names give the same text exactly when they are equal. |
| I18n.PlainIgnoresArgs | src/i18n.ts:52-55 | Plain messages do not depend on the arguments. |
| I18n.TemplateUsesFirstArg | src/i18n.ts:49-56 | A template message is the selected catalog's prefix followed by the first argument. Later arguments are ignored. |
| I18n.PatchGeneratedExamples | src/i18n.ts:23-56 | In English, `patchGenerated(f)` is "Patch file generated: " + f. In Chinese, it is "Patch 文件已生成: " + f. A plain key ignores its argument. |

## Left out

- The editor API is taken as given values: tab groups, `Uri.parse(...).fsPath`, `getWorkspaceFolder`, notifications, `revealFileInOS`, command registration and `vscode.env.language`.
  - `DiffInput.modifiedPath` is the `fsPath` of the modified side already resolved.
  - `Host.workspaceRootOf` stands for `getWorkspaceFolder(...).uri.fsPath`.
  - Notifications and the reveal are listed as `Effect` values.
- `child_process.exec` and git itself are not run. The model stops at the command line, the directory it runs in, and how a POSIX shell splits that line. The shell's outcome is an input to `Effects`.
- `path.relative` is an input (`Host.relative`).
- `PathNames.Join`: the normalisation of `..`, `.` and doubled separators in the root is not modelled. The root is used as it stands. UNC roots are not treated specially.
- On Windows, `exec` runs `cmd.exe`, whose quoting differs. `ShellWords` models only `/bin/sh`.
- `ShellWords.ReadCommand` covers a fragment of the shell grammar. It returns None for anything outside the fragment. That covers command substitution (`$(` and backquote) and every `$` form other than `$name`, such as `${name}`, `$1` or a lone `$`. It also covers unquoted characters other than letters, digits, `_`, `-`, `.` and `/`, and a redirection of any descriptor other than standard output, such as `2>x`. So None means "not covered by the model", not "rejected by the shell".
- `I18n.ToLower`: lower-cases ASCII letters only, where JavaScript's `toLowerCase` maps all of Unicode. No other character lower-cases to `z` or `h`, so the choice of catalog is the same.
- Strings are sequences of code points, where JavaScript strings are UTF-16 code units. This makes no difference here: every character the pattern and the prefix test look for is in the Basic Multilingual Plane.
- `I18n.Render`: arguments are given in their string form. JavaScript would stringify any value.
- Commit ids are usually hexadecimal. The label pattern accepts any `\w` characters, and the model follows the pattern.
- The command writes each patch directly in the workspace root. No output folder setting is read.
- The command writes its Chinese error texts in place and does not call `getI18nText`, so its messages do not follow the editor's language. `GeneratePatch.AbortNotice` shows that those texts are the zh-cn catalog's.
- The blame and clipboard fallbacks, `format-patch` mode, the output-directory setting and commit-id input validation are described for the extension but are not in the command modelled here.

## Findings

| source | as written | input that shows it | evidently intended | confidence | as-written member | corrected member |
|---|---|---|---|---|---|---|
| src/extension.ts:51 | Both paths go between double quotes with nothing escaped. | The workspace file `/ws/a" "b/c.css`, whose patch path `/ws/c.css.<hash1>_<hash2>.patch` holds no quote: the shell passes `a` and `b/c.css` to git as two paths. A quote in the file name itself also reaches the patch path, which is then split as well. | Each path reaches git as one argument, unchanged. This needs `"`, `\`, `$` and backquote escaped inside the quotes. | medium, not executed | GitCommand.AsWrittenSplitsPath | GitCommand.QuotedCommandReadsBack |
| src/extension.ts:51 | A `$` inside a path is left for the shell to expand. | The workspace file `/ws/Foo$Bar.css` with no variable `Bar` set: git is asked about `Foo.css`, and the patch is written to `/ws/Foo.css.<hash1>_<hash2>.patch` while line 57 reveals `/ws/Foo$Bar.css.<hash1>_<hash2>.patch`. | The path reaches git unchanged, and the patch is written where it is later revealed. | medium, not executed | GitCommand.AsWrittenExpandsVariable | GeneratePatch.MakeEscapedPlan |

`GeneratePatch.PlanPatch` and `GeneratePatch.MakePlan` build the command as the source does.
`GeneratePatch.MakeEscapedPlan` is the corrected plan. It escapes both paths with
`GitCommand.GitCommandQuoted` and is the source's plan whenever the paths hold none of those four
characters. A path with a backquote or `$(` is also open to command substitution. The model
does not follow what such a command runs.
