/**
 * The message catalog of src/i18n.ts: one table of sixteen messages per locale, the choice of
 * locale from the editor's display language, and the lookup that fills a message's argument.
 */
module I18n {

  /** The two catalogs, `zh-cn` and `en`. */
  datatype Locale = ZhCn | En

  /** The message keys; both catalogs define every one of them. */
  datatype Key =
    | PluginActivated | PatchGenerated | PatchFullGenerated | PatchFailed | PatchEmpty
    | NotGitRepo | CommitNotExist | NoWorkspace | NoTab | ParseCommitFail | GetFilePathFail
    | GetWorkspaceFail | InputCommitId | InputCommitIdPlaceholder | InputCommitIdInvalid
    | InputCommitIdShort

  /** A message is fixed text, or text followed by the string form of its first argument. */
  datatype Msg = Plain(text: string) | Template(prefix: string)

  /** The keys whose message takes the generated file name. */
  predicate IsTemplateKey(k: Key) {
    k == PatchGenerated || k == PatchFullGenerated
  }

  /** The catalog entry for key in a locale; each catalog has an entry for every key. */
  function Message(loc: Locale, key: Key): (m: Msg)
    ensures m.Template? <==> IsTemplateKey(key)
  {
    match loc
    case ZhCn => ZhCnMessage(key)
    case En => EnMessage(key)
  }

  function ZhCnMessage(key: Key): Msg {
    match key
    case PluginActivated => Plain("Git Diff Patch Generator 插件已激活")
    case PatchGenerated => Template("Patch 文件已生成: ")
    case PatchFullGenerated => Template("完整 Patch 文件已生成: ")
    case PatchFailed => Plain("生成 patch 失败")
    case PatchEmpty => Plain("生成的 patch 为空，请检查 commit id")
    case NotGitRepo => Plain("不是 Git 仓库")
    case CommitNotExist => Plain("commit 不存在")
    case NoWorkspace => Plain("未打开任何工作区。")
    case NoTab => Plain("未能获取当前标签信息。")
    case ParseCommitFail => Plain("未能从标签解析出 commit 哈希。")
    case GetFilePathFail => Plain("未能获取对比文件路径。")
    case GetWorkspaceFail => Plain("未能定位到工作区。")
    case InputCommitId => Plain("请输入 commit id")
    case InputCommitIdPlaceholder => Plain("例如: 24a2f307")
    case InputCommitIdInvalid => Plain("请输入有效的 commit id")
    case InputCommitIdShort => Plain("请输入至少7位 commit id")
  }

  function EnMessage(key: Key): Msg {
    match key
    case PluginActivated => Plain("Git Diff Patch Generator extension activated")
    case PatchGenerated => Template("Patch file generated: ")
    case PatchFullGenerated => Template("Full patch file generated: ")
    case PatchFailed => Plain("Failed to generate patch")
    case PatchEmpty => Plain("Generated patch is empty, please check commit id")
    case NotGitRepo => Plain("Not a Git repository")
    case CommitNotExist => Plain("Commit does not exist")
    case NoWorkspace => Plain("No workspace opened.")
    case NoTab => Plain("Failed to get current tab info.")
    case ParseCommitFail => Plain("Failed to parse commit hash from tab.")
    case GetFilePathFail => Plain("Failed to get diff file path.")
    case GetWorkspaceFail => Plain("Failed to locate workspace.")
    case InputCommitId => Plain("Please enter commit id")
    case InputCommitIdPlaceholder => Plain("e.g. 24a2f307")
    case InputCommitIdInvalid => Plain("Please enter a valid commit id")
    case InputCommitIdShort => Plain("Please enter at least 7 characters for commit id")
  }

  /** ASCII lower case; every other character is kept. */
  function LowerChar(c: char): char {
    if 'A' <= c <= 'Z' then (c as int + 32) as char else c
  }

  /** `toLowerCase` on the characters that decide the locale. */
  function ToLower(s: string): (r: string)
    ensures |r| == |s|
    ensures forall i :: 0 <= i < |s| ==> r[i] == LowerChar(s[i])
    ensures forall i :: 0 <= i < |r| ==> !('A' <= r[i] <= 'Z')
  {
    if |s| == 0 then "" else [LowerChar(s[0])] + ToLower(s[1..])
  }

  /** Lower-casing twice is lower-casing once. */
  lemma ToLowerIdempotent(s: string)
    ensures ToLower(ToLower(s)) == ToLower(s)
  {
    var t := ToLower(s);
    assert forall i :: 0 <= i < |t| ==> LowerChar(t[i]) == t[i];
  }

  /** The catalog for a display language: Chinese exactly when it begins with `zh`, in any case. */
  function GetLang(language: string): (r: Locale)
    ensures r == ZhCn <==>
      |language| >= 2 && (language[0] == 'z' || language[0] == 'Z') && (language[1] == 'h' || language[1] == 'H')
  {
    if "zh" <= ToLower(language) then ZhCn else En
  }

  /** The language id is read without regard to case. */
  lemma GetLangIgnoresCase(language: string)
    ensures GetLang(ToLower(language)) == GetLang(language)
  {
    ToLowerIdempotent(language);
  }

  lemma GetLangExamples()
    ensures GetLang("zh-cn") == ZhCn && GetLang("ZH-TW") == ZhCn && GetLang("Zh-Hans") == ZhCn
    ensures GetLang("zh") == ZhCn
    ensures GetLang("en-US") == En && GetLang("z") == En && GetLang("") == En && GetLang("ja") == En
  {
  }

  /**
   * A message with its argument filled in. Arguments are given in their string form; a template
   * called without one shows `undefined`, as a JavaScript template literal does.
   */
  function Render(m: Msg, args: seq<string>): (r: string)
    ensures m.Plain? ==> r == m.text
    ensures m.Template? ==> |r| >= |m.prefix| && r[..|m.prefix|] == m.prefix
    ensures m.Template? && |args| > 0 ==> r[|m.prefix|..] == args[0]
    ensures m.Template? && |args| == 0 ==> r[|m.prefix|..] == "undefined"
  {
    match m
    case Plain(text) => text
    case Template(prefix) => prefix + (if |args| > 0 then args[0] else "undefined")
  }

  /** `getI18nText`: the message for key in the editor's language, with args filled in. */
  function GetI18nText(language: string, key: Key, args: seq<string>): (r: string)
    ensures !IsTemplateKey(key) ==> r == Message(GetLang(language), key).text
    ensures IsTemplateKey(key) ==> Message(GetLang(language), key).prefix <= r
  {
    Render(Message(GetLang(language), key), args)
  }

  /** Fixed messages do not depend on the arguments passed. */
  lemma PlainIgnoresArgs(language: string, key: Key, args1: seq<string>, args2: seq<string>)
    requires !IsTemplateKey(key)
    ensures GetI18nText(language, key, args1) == GetI18nText(language, key, args2)
  {
  }

  /** A template message is its prefix followed by the first argument; later ones are ignored. */
  lemma TemplateUsesFirstArg(language: string, key: Key, file: string, rest: seq<string>)
    requires IsTemplateKey(key)
    ensures GetI18nText(language, key, [file] + rest)
         == Message(GetLang(language), key).prefix + file
    ensures GetI18nText(language, key, [file] + rest) == GetI18nText(language, key, [file])
  {
  }

  /** A template message determines its argument: different file names give different texts. */
  lemma TemplateArgRecoverable(language: string, key: Key, a: string, b: string)
    requires IsTemplateKey(key)
    ensures GetI18nText(language, key, [a]) == GetI18nText(language, key, [b]) <==> a == b
  {
    var prefix := Message(GetLang(language), key).prefix;
    if GetI18nText(language, key, [a]) == GetI18nText(language, key, [b]) {
      assert a == GetI18nText(language, key, [a])[|prefix|..];
    }
  }

  /** The two catalogs agree on which messages take an argument, so either can stand in for the other. */
  lemma CatalogsAgree(k: Key)
    ensures Message(ZhCn, k).Template? <==> Message(En, k).Template?
  {
  }

  lemma PatchGeneratedExamples(file: string)
    ensures GetI18nText("en", PatchGenerated, [file]) == "Patch file generated: " + file
    ensures GetI18nText("zh-CN", PatchGenerated, [file]) == "Patch 文件已生成: " + file
    ensures GetI18nText("en-US", PatchFailed, [file]) == "Failed to generate patch"
  {
  }
}
