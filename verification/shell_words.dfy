/**
 * How a POSIX shell (`/bin/sh -c`, which `child_process.exec` uses) splits a simple command line
 * into arguments and an output redirection, for the small part of the shell grammar the patch
 * command needs: blanks, bare words, double-quoted strings with their backslash escapes
 * (section 2.2.3 of the POSIX Shell Command Language) and `> target`.
 *
 * Inside double quotes `$name` is replaced by the value of the shell variable name, or by
 * nothing when it is unset (section 2.6.2). A reader result of None means the line leaves the
 * fragment: an unterminated quote, a command substitution (`$(` or a backquote), any other form of
 * `$`, or a character the fragment does not cover.
 */
module ShellWords {
  import opened Wrappers

  /** Argument vector and the file standard output is redirected to. */
  datatype Invocation = Invocation(args: seq<string>, stdout: Option<string>)

  /** Characters the shell takes literally in an unquoted word (a conservative choice). */
  predicate IsBareChar(c: char) {
    || ('a' <= c <= 'z') || ('A' <= c <= 'Z') || ('0' <= c <= '9')
    || c == '_' || c == '-' || c == '.' || c == '/'
  }

  /** Characters that keep a special meaning inside double quotes. */
  predicate IsQuoteSpecial(c: char) {
    c == '$' || c == '`' || c == '"' || c == '\\'
  }

  /** The shell's variables, which `$name` is looked up in. */
  type Env = map<string, string>

  /** The value of a variable; an unset variable expands to nothing. */
  function Lookup(env: Env, name: string): string {
    if name in env then env[name] else ""
  }

  /** Characters of a variable name (section 3.235 of the POSIX Base Definitions). */
  predicate IsNameChar(c: char) {
    ('a' <= c <= 'z') || ('A' <= c <= 'Z') || ('0' <= c <= '9') || c == '_'
  }

  predicate IsNameStart(c: char) {
    IsNameChar(c) && !('0' <= c <= '9')
  }

  /** A name `$` can be followed by: a letter or `_`, then letters, digits and `_`. */
  predicate IsVariableName(name: string) {
    |name| > 0 && IsNameStart(name[0]) && forall i :: 0 <= i < |name| ==> IsNameChar(name[i])
  }

  /** Length of the longest run of name characters at the start of s. */
  function NameLength(s: string): (n: nat)
    ensures n <= |s|
  {
    if |s| > 0 && IsNameChar(s[0]) then 1 + NameLength(s[1..]) else 0
  }

  /** A blank or the start of a redirection ends an unquoted word. */
  predicate EndsWord(s: string) {
    |s| == 0 || s[0] == ' ' || s[0] == '>'
  }

  /** What comes next inside double quotes: the closing quote, text worth `length` characters of
      the line, or something the fragment does not cover. */
  datatype Piece = Close | Stop | Text(value: string, length: nat)

  /** The next piece of a double-quoted string (section 2.2.3 of the POSIX Shell Command Language). */
  function NextPiece(env: Env, s: string): (p: Piece)
    ensures p.Text? ==> 1 <= p.length <= |s|
  {
    if |s| == 0 then Stop
    else if s[0] == '"' then Close
    else if s[0] == '`' then Stop
    else if s[0] == '$' then
      if |s| >= 2 && IsNameStart(s[1]) then
        var k := 1 + NameLength(s[1..]);
        Text(Lookup(env, s[1..k]), k)
      else Stop
    else if s[0] == '\\' && |s| >= 2 && (IsQuoteSpecial(s[1]) || s[1] == '\n') then
      Text(if s[1] == '\n' then "" else [s[1]], 2)
    else Text([s[0]], 1)
  }

  /**
   * The inside of a double-quoted string, read up to its closing quote: the value and the number
   * of characters consumed, closing quote included.
   */
  function ReadQuoted(env: Env, s: string): (r: Option<(string, nat)>)
    ensures r.Some? ==> 1 <= r.value.1 <= |s|
    decreases |s|
  {
    match NextPiece(env, s)
    case Close => Some(("", 1))
    case Stop => None
    case Text(v, k) =>
      match ReadQuoted(env, s[k..])
      case None => None
      case Some((w, n)) => Some((v + w, k + n))
  }

  /** One word at the start of s, made of bare characters and double-quoted parts. */
  function ReadWord(env: Env, s: string): (r: Option<(string, nat)>)
    ensures r.Some? ==> r.value.1 <= |s|
    ensures r.Some? && !EndsWord(s) ==> 1 <= r.value.1
    decreases |s|
  {
    if EndsWord(s) then Some(("", 0))
    else if s[0] == '"' then
      match ReadQuoted(env, s[1..])
      case None => None
      case Some((v, n)) =>
        match ReadWord(env, s[1 + n..])
        case None => None
        case Some((w, m)) => Some((v + w, 1 + n + m))
    else if IsBareChar(s[0]) then
      match ReadWord(env, s[1..])
      case None => None
      case Some((w, m)) => Some(([s[0]] + w, m + 1))
    else None
  }

  /** Number of leading blanks. */
  function Blanks(s: string): (n: nat)
    ensures n <= |s| && forall i :: 0 <= i < n ==> s[i] == ' '
    ensures n == |s| || s[n] != ' '
  {
    if |s| > 0 && s[0] == ' ' then 1 + Blanks(s[1..]) else 0
  }

  /** Puts w in front of the arguments read from the rest of the line. */
  function PrependArg(w: string, rest: Option<Invocation>): Option<Invocation> {
    match rest
    case None => None
    case Some(inv) => Some(inv.(args := [w] + inv.args))
  }

  /**
   * An unquoted word of digits directly followed by `>` is not an argument: the shell reads it
   * as the number of the descriptor to redirect (the IO_NUMBER token of section 2.10.1).
   */
  predicate IsIoNumber(s: string, n: nat) {
    0 < n < |s| && s[n] == '>' && forall i :: 0 <= i < n ==> '0' <= s[i] <= '9'
  }

  /**
   * The whole command line; of several `>` redirections the last one wins. Redirecting a
   * descriptor other than standard output is outside the fragment.
   */
  function ReadCommand(env: Env, s: string): (r: Option<Invocation>)
    decreases |s|
  {
    if |s| == 0 then Some(Invocation([], None))
    else if s[0] == ' ' then ReadCommand(env, s[1..])
    else if s[0] == '>' then
      var k := 1 + Blanks(s[1..]);
      match ReadWord(env, s[k..])
      case None => None
      case Some((w, n)) =>
        if n == 0 then None
        else
          match ReadCommand(env, s[k + n..])
          case None => None
          case Some(inv) => Some(if inv.stdout.Some? then inv else inv.(stdout := Some(w)))
    else
      match ReadWord(env, s)
      case None => None
      case Some((w, n)) => if IsIoNumber(s, n) then None else PrependArg(w, ReadCommand(env, s[n..]))
  }

  // ---------------------------------------------------------------------------
  // Quoting
  // ---------------------------------------------------------------------------

  /** Backslash before every character that is special inside double quotes. */
  function Escape(s: string): (r: string)
    ensures |r| >= |s|
  {
    if |s| == 0 then "" else EscapeChar(s[0]) + Escape(s[1..])
  }

  function EscapeChar(c: char): string {
    if IsQuoteSpecial(c) then ['\\', c] else [c]
  }

  /** s as one double-quoted shell word. */
  function Quote(s: string): string {
    "\"" + Escape(s) + "\""
  }

  /** s between double quotes with nothing escaped, as the source writes paths. */
  function Wrap(s: string): string {
    "\"" + s + "\""
  }

  predicate HasNoQuoteSpecial(s: string) {
    forall i :: 0 <= i < |s| ==> !IsQuoteSpecial(s[i])
  }

  predicate IsBareWord(s: string) {
    |s| > 0 && forall i :: 0 <= i < |s| ==> IsBareChar(s[i])
  }

  /** Escaping changes nothing on text without special characters, so `Quote` and `Wrap` agree there. */
  lemma {:induction false} EscapePlain(s: string)
    requires HasNoQuoteSpecial(s)
    ensures Escape(s) == s && Quote(s) == Wrap(s)
  {
    if |s| > 0 {
      EscapePlain(s[1..]);
      assert [s[0]] + s[1..] == s;
    }
  }

  /** Reading an escaped string back gives the original, whatever follows the closing quote. */
  lemma {:induction false} ReadQuotedEscape(env: Env, s: string, rest: string, t: string)
    requires t == Escape(s) + "\"" + rest
    ensures ReadQuoted(env, t) == Some((s, |Escape(s)| + 1))
  {
    if |s| == 0 {
      assert t[0] == '"';
    } else {
      var tail := Escape(s[1..]) + "\"" + rest;
      ReadQuotedEscape(env, s[1..], rest, tail);
      EscapeFirst(s, rest);
      ReadQuotedEscapedChar(env, t, s[0], tail, s[1..], |Escape(s[1..])| + 1);
      assert [s[0]] + s[1..] == s;
    }
  }

  /** One character, escaped for double quotes, in front of the rest of a quoted string. */
  lemma ReadQuotedEscapedChar(env: Env, t: string, c: char, tail: string, v: string, n: nat)
    requires t == EscapeChar(c) + tail && ReadQuoted(env, tail) == Some((v, n))
    ensures ReadQuoted(env, t) == Some(([c] + v, |EscapeChar(c)| + n))
  {
    if IsQuoteSpecial(c) {
      ReadQuotedEscapedHead(env, t, c, tail);
    } else {
      ReadQuotedPlainHead(env, t, c, tail);
    }
  }

  /** The escaped text of s is that of its first character followed by that of the rest. */
  lemma EscapeFirst(s: string, rest: string)
    requires |s| > 0
    ensures Escape(s) + "\"" + rest == EscapeChar(s[0]) + (Escape(s[1..]) + "\"" + rest)
  {
    var h := EscapeChar(s[0]);
    var e := Escape(s[1..]);
    Assoc(h, e, "\"");
    Assoc(h, e + "\"", rest);
  }

  lemma Assoc(a: string, b: string, c: string)
    ensures (a + b) + c == a + (b + c)
  {
  }

  /** An escaped special character stands for itself. */
  lemma ReadQuotedEscapedHead(env: Env, s: string, c: char, tail: string)
    requires s == ['\\', c] + tail
    requires IsQuoteSpecial(c) && ReadQuoted(env, tail).Some?
    ensures ReadQuoted(env, s) == Some(([c] + ReadQuoted(env, tail).value.0, ReadQuoted(env, tail).value.1 + 2))
  {
    assert s[2..] == tail;
    assert NextPiece(env, s) == Text([c], 2);
    ReadQuotedText(env, s, [c], 2, ReadQuoted(env, tail).value.0, ReadQuoted(env, tail).value.1);
  }

  /** Any other character is taken literally. */
  lemma ReadQuotedPlainHead(env: Env, s: string, c: char, tail: string)
    requires s == [c] + tail
    requires !IsQuoteSpecial(c) && ReadQuoted(env, tail).Some?
    ensures ReadQuoted(env, s) == Some(([c] + ReadQuoted(env, tail).value.0, ReadQuoted(env, tail).value.1 + 1))
  {
    assert s[1..] == tail;
    assert NextPiece(env, s) == Text([c], 1);
    ReadQuotedText(env, s, [c], 1, ReadQuoted(env, tail).value.0, ReadQuoted(env, tail).value.1);
  }

  /** A quoted word followed by a blank, `>` or the end reads back as exactly s. */
  lemma ReadWordQuote(env: Env, s: string, rest: string)
    requires EndsWord(rest)
    ensures ReadWord(env, Quote(s) + rest) == Some((s, |Quote(s)|))
  {
    var t := Quote(s) + rest;
    QuoteSplit(s, rest, t);
    ReadQuotedEscape(env, s, rest, t[1..]);
    ReadWordAfterQuote(env, t, s, |Escape(s)| + 1);
  }

  /** Where the parts of a quoted word and what follows it sit. */
  lemma QuoteSplit(s: string, rest: string, t: string)
    requires t == Quote(s) + rest
    ensures |t| > 0 && t[0] == '"'
    ensures t[1..] == Escape(s) + "\"" + rest && t[1 + |Escape(s)| + 1..] == rest
  {
    var e := Escape(s);
    assert t == "\"" + (e + "\"" + rest);
  }

  /** A word that is one quoted string: its value, once the closing quote is followed by a word's end. */
  lemma ReadWordAfterQuote(env: Env, t: string, v: string, n: nat)
    requires |t| > 0 && t[0] == '"'
    requires ReadQuoted(env, t[1..]) == Some((v, n)) && EndsWord(t[1 + n..])
    ensures ReadWord(env, t) == Some((v, 1 + n))
  {
    assert v + "" == v;
  }

  /** A bare word followed by a blank, `>` or the end reads back as itself. */
  lemma {:induction false} ReadWordBare(env: Env, w: string, rest: string)
    requires forall i :: 0 <= i < |w| ==> IsBareChar(w[i])
    requires EndsWord(rest)
    ensures ReadWord(env, w + rest) == Some((w, |w|))
  {
    if |w| == 0 {
      assert w + rest == rest;
    } else {
      ReadWordBare(env, w[1..], rest);
      assert (w + rest)[1..] == w[1..] + rest;
      assert [w[0]] + w[1..] == w;
    }
  }

  /** A bare word then a blank contributes one argument. */
  lemma ReadCommandBare(env: Env, w: string, rest: string)
    requires IsBareWord(w)
    ensures ReadCommand(env, w + " " + rest) == PrependArg(w, ReadCommand(env, rest))
  {
    var t := w + " " + rest;
    assert t == w + (" " + rest);
    ReadWordBare(env, w, " " + rest);
    assert t[|w|..] == " " + rest;
    assert (" " + rest)[1..] == rest;
  }

  /**
   * Digits directly before `>` redirect that descriptor instead of adding an argument, so
   * `git 2>x` does not pass `2` to git and leaves the fragment.
   */
  lemma ReadCommandDescriptor(env: Env, d: string, rest: string)
    requires |d| > 0 && forall i :: 0 <= i < |d| ==> '0' <= d[i] <= '9'
    ensures ReadCommand(env, d + ">" + rest) == None
    ensures ReadCommand(env, "git " + d + ">" + rest) == None
  {
    var t := d + ">" + rest;
    assert t == d + (">" + rest);
    ReadWordBare(env, d, ">" + rest);
    assert IsIoNumber(t, |d|);
    assert "git " + d + ">" + rest == "git" + " " + t;
    ReadCommandBare(env, "git", t);
  }

  /** A quoted word then a blank contributes one argument: the unquoted text. */
  lemma ReadCommandQuoted(env: Env, s: string, rest: string)
    ensures ReadCommand(env, Quote(s) + " " + rest) == PrependArg(s, ReadCommand(env, rest))
  {
    var t := Quote(s) + " " + rest;
    assert t == Quote(s) + (" " + rest);
    ReadWordQuote(env, s, " " + rest);
    assert t[|Quote(s)|..] == " " + rest;
    assert (" " + rest)[1..] == rest;
  }

  /** A final `> "target"` redirects standard output to the unquoted target. */
  lemma ReadCommandRedirect(env: Env, target: string)
    ensures ReadCommand(env, "> " + Quote(target)) == Some(Invocation([], Some(target)))
  {
    var t := "> " + Quote(target);
    assert t[1..] == " " + Quote(target);
    assert Blanks(t[1..]) == 1;
    assert t[2..] == Quote(target) + "";
    ReadWordQuote(env, target, "");
    assert t[2 + |Quote(target)|..] == "";
  }

  /** The longest name at the start of `name + t` is name itself when t cannot continue it. */
  lemma {:induction false} NameLengthOf(name: string, t: string)
    requires forall i :: 0 <= i < |name| ==> IsNameChar(name[i])
    requires |t| == 0 || !IsNameChar(t[0])
    ensures NameLength(name + t) == |name|
  {
    if |name| == 0 {
      assert name + t == t;
    } else {
      NameLengthOf(name[1..], t);
      assert (name + t)[1..] == name[1..] + t;
    }
  }

  /** A `$` that starts a name is replaced by the name's value. */
  lemma NextPieceDollar(env: Env, s: string, name: string)
    requires |s| >= 2 && s[0] == '$' && IsNameStart(s[1])
    requires s[1..1 + NameLength(s[1..])] == name
    ensures NextPiece(env, s) == Text(Lookup(env, name), 1 + |name|)
  {
  }

  /** A piece of text followed by the rest of the quoted string. */
  lemma ReadQuotedText(env: Env, s: string, v: string, k: nat, w: string, n: nat)
    requires NextPiece(env, s) == Text(v, k) && ReadQuoted(env, s[k..]) == Some((w, n))
    ensures ReadQuoted(env, s) == Some((v + w, k + n))
  {
  }

  /** Where the name and what follows it sit in `$name t`. */
  lemma DollarSplit(s: string, name: string, t: string)
    requires |name| > 0 && s == ['$'] + (name + t)
    ensures |s| >= 2 && s[0] == '$' && s[1] == name[0]
    ensures s[1..] == name + t && s[1..1 + |name|] == name && s[1 + |name|..] == t
  {
    var u := name + t;
    assert s[1..] == u;
    assert u[..|name|] == name;
    assert u[|name|..] == t;
  }

  /** Inside double quotes `$name` is replaced by its value when the next character cannot
      continue the name. */
  lemma ReadQuotedVariable(env: Env, s: string, name: string, t: string, v: string, n: nat)
    requires IsVariableName(name) && s == ['$'] + (name + t)
    requires |t| > 0 && !IsNameChar(t[0]) && ReadQuoted(env, t) == Some((v, n))
    ensures ReadQuoted(env, s) == Some((Lookup(env, name) + v, 1 + |name| + n))
  {
    DollarSplit(s, name, t);
    NameLengthOf(name, t);
    NextPieceDollar(env, s, name);
    ReadQuotedText(env, s, Lookup(env, name), 1 + |name|, v, n);
  }

  /** Text without special characters is read literally in front of whatever follows. */
  lemma {:induction false} ReadQuotedPlainPrefix(env: Env, x: string, t: string, s: string)
    requires s == x + t
    requires HasNoQuoteSpecial(x) && ReadQuoted(env, t).Some?
    ensures ReadQuoted(env, s) == Some((x + ReadQuoted(env, t).value.0, |x| + ReadQuoted(env, t).value.1))
  {
    var v := ReadQuoted(env, t).value.0;
    if |x| == 0 {
      assert s == t;
      assert x + v == v;
    } else {
      var tail := x[1..] + t;
      ReadQuotedPlainPrefix(env, x[1..], t, tail);
      assert [x[0]] + x[1..] == x;
      Assoc([x[0]], x[1..], t);
      ReadQuotedPlainHead(env, s, x[0], tail);
      Assoc([x[0]], x[1..], v);
    }
  }

  /** The first character of `y"rest`: y's first, or the quote. */
  lemma FirstAfter(y: string, rest: string)
    ensures (y + "\"" + rest)[0] == if |y| > 0 then y[0] else '"'
  {
  }

  lemma RegroupDollar(x: string, name: string, t: string)
    ensures x + "$" + name + t == x + (['$'] + (name + t))
  {
  }

  /** Between double quotes, `x$name y` reads as x, the value of name, then y. */
  lemma ReadQuotedExpands(env: Env, s: string, x: string, name: string, y: string, rest: string)
    requires HasNoQuoteSpecial(x) && HasNoQuoteSpecial(y) && IsVariableName(name)
    requires |y| == 0 || !IsNameChar(y[0])
    requires s == x + "$" + name + (y + "\"" + rest)
    ensures ReadQuoted(env, s) == Some((x + Lookup(env, name) + y, |x| + 1 + |name| + |y| + 1))
  {
    EscapePlain(y);
    var t := y + "\"" + rest;
    ReadQuotedEscape(env, y, rest, t);
    FirstAfter(y, rest);
    var u := ['$'] + (name + t);
    ReadQuotedVariable(env, u, name, t, y, |y| + 1);
    RegroupDollar(x, name, t);
    ReadQuotedPlainPrefix(env, x, u, s);
    Assoc(x, Lookup(env, name), y);
  }

  /** A word that does not start with a blank or `>` is the next argument, unless it numbers a descriptor. */
  lemma ReadCommandWord(env: Env, t: string, w: string, n: nat)
    requires |t| > 0 && t[0] != ' ' && t[0] != '>' && ReadWord(env, t) == Some((w, n))
    ensures !IsIoNumber(t, n) ==> ReadCommand(env, t) == PrependArg(w, ReadCommand(env, t[n..]))
    ensures IsIoNumber(t, n) ==> ReadCommand(env, t) == None
  {
  }

  /** A leading blank is skipped. */
  lemma ReadCommandBlank(env: Env, t: string)
    requires |t| > 0 && t[0] == ' '
    ensures ReadCommand(env, t) == ReadCommand(env, t[1..])
  {
  }

  /** A double-quoted word, then a blank: its value is the next argument. */
  lemma ReadCommandQuotedWord(env: Env, t: string, v: string, n: nat, rest: string)
    requires |t| > 0 && t[0] == '"' && ReadQuoted(env, t[1..]) == Some((v, n))
    requires t[1 + n..] == " " + rest
    ensures ReadCommand(env, t) == PrependArg(v, ReadCommand(env, rest))
  {
    ReadWordAfterQuote(env, t, v, n);
    ReadCommandWord(env, t, v, 1 + n);
    assert (" " + rest)[1..] == rest;
    ReadCommandBlank(env, " " + rest);
  }
}
