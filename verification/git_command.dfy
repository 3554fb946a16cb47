/**
 * The shell command of src/extension.ts:51 that writes the patch:
 *
 *   git diff <hash1> <hash2> -- "<relative path>" > "<patch path>"
 *
 * `GitCommand` is the line as the source builds it. The paths go between double quotes without
 * escaping, so a path holding `"` is split into several arguments and a `$name` inside a path is
 * replaced by the value of a shell variable. `GitCommandQuoted` escapes them; it agrees
 * with `GitCommand` on every path without those characters, and the shell always reads it back
 * as the intended invocation.
 */
module GitCommand {
  import opened Wrappers
  import opened ShellWords
  import LabelPattern
  import RegexChars
  import PathNames
  import PatchNames

  /** `git diff h1 h2 -- <rel word> > <out word>`, the words already in shell syntax. */
  function CommandLine(hash1: string, hash2: string, relWord: string, outWord: string): string {
    "git diff " + hash1 + " " + hash2 + " -- " + relWord + " > " + outWord
  }

  /**
   * The command line exactly as the source assembles it. When neither path holds `"`, `\`, `$` or
   * a backquote it is the escaped line, so whatever the shell's variables hold it runs the intended
   * invocation.
   */
  function GitCommand(hash1: string, hash2: string, rel: string, out: string): (r: string)
    ensures LabelPattern.IsHash(hash1) && LabelPattern.IsHash(hash2)
         && HasNoQuoteSpecial(rel) && HasNoQuoteSpecial(out)
        ==> (&& r == GitCommandQuoted(hash1, hash2, rel, out)
             && forall env :: ReadCommand(env, r) == Some(IntendedInvocation(hash1, hash2, rel, out)))
  {
    var r := "git diff " + hash1 + " " + hash2 + " -- \"" + rel + "\" > \"" + out + "\"";
    assert r == CommandLine(hash1, hash2, Wrap(rel), Wrap(out));
    PlainPathsReadBack(hash1, hash2, rel, out);
    r
  }

  /** The source's line, regrouped as the four words with the paths between plain quotes. */
  lemma GitCommandWords(hash1: string, hash2: string, rel: string, out: string)
    ensures GitCommand(hash1, hash2, rel, out) == CommandLine(hash1, hash2, Wrap(rel), Wrap(out))
  {
  }

  /** On paths without special characters plain quotes are escaped quotes, which read back. */
  lemma PlainPathsReadBack(hash1: string, hash2: string, rel: string, out: string)
    ensures LabelPattern.IsHash(hash1) && LabelPattern.IsHash(hash2)
         && HasNoQuoteSpecial(rel) && HasNoQuoteSpecial(out)
        ==> (&& CommandLine(hash1, hash2, Wrap(rel), Wrap(out)) == GitCommandQuoted(hash1, hash2, rel, out)
             && forall env :: ReadCommand(env, GitCommandQuoted(hash1, hash2, rel, out))
                            == Some(IntendedInvocation(hash1, hash2, rel, out)))
  {
    if LabelPattern.IsHash(hash1) && LabelPattern.IsHash(hash2)
       && HasNoQuoteSpecial(rel) && HasNoQuoteSpecial(out) {
      EscapePlain(rel);
      EscapePlain(out);
      forall env
        ensures ReadCommand(env, GitCommandQuoted(hash1, hash2, rel, out))
             == Some(IntendedInvocation(hash1, hash2, rel, out))
      {
        QuotedCommandReadsBack(env, hash1, hash2, rel, out);
      }
    }
  }

  /** The same command line with both paths escaped for double quotes. */
  function GitCommandQuoted(hash1: string, hash2: string, rel: string, out: string): string {
    CommandLine(hash1, hash2, Quote(rel), Quote(out))
  }

  /** What the patch command is meant to run: `git diff h1 h2 -- rel`, output into `out`. */
  function IntendedInvocation(hash1: string, hash2: string, rel: string, out: string): Invocation {
    Invocation(["git", "diff", hash1, hash2, "--", rel], Some(out))
  }

  /** The command line as a chain of words, each followed by its blank. */
  lemma CommandLineWords(hash1: string, hash2: string, x: string, y: string)
    ensures CommandLine(hash1, hash2, x, y)
         == "git" + " " + ("diff" + " " + (hash1 + " " + (hash2 + " " + ("--" + " " + (x + " " + ("> " + y))))))
  {
    var t3 := "--" + " " + (x + " " + ("> " + y));
    assert " > " + y == " " + ("> " + y);
    assert " -- " + x + " > " + y == " " + t3;
    assert "git diff " + hash1 == "git" + " " + "diff" + " " + hash1;
  }

  /** Hashes from the label are bare shell words. */
  lemma HashIsBareWord(h: string)
    requires LabelPattern.IsHash(h)
    ensures IsBareWord(h)
  {
    forall i | 0 <= i < |h| ensures IsBareChar(h[i]) {
      assert RegexChars.IsWordChar(h[i]);
    }
  }

  /** The words before the path: `git diff h1 h2 --`, each read as one argument. */
  lemma ReadCommandPrefix(env: Env, hash1: string, hash2: string, x: string, y: string)
    requires LabelPattern.IsHash(hash1) && LabelPattern.IsHash(hash2)
    ensures ReadCommand(env, CommandLine(hash1, hash2, x, y))
         == PrependArg("git", PrependArg("diff", PrependArg(hash1, PrependArg(hash2,
              PrependArg("--", ReadCommand(env, x + " " + ("> " + y)))))))
  {
    HashIsBareWord(hash1);
    HashIsBareWord(hash2);
    CommandLineWords(hash1, hash2, x, y);
    var t4 := x + " " + ("> " + y);
    var t2 := hash2 + " " + ("--" + " " + t4);
    ReadTwoWords(env, hash2, "--", t4);
    ReadTwoWords(env, "diff", hash1, t2);
    ReadCommandBare(env, "git", "diff" + " " + (hash1 + " " + t2));
  }

  /** Two bare words, each followed by a blank, are the next two arguments. */
  lemma ReadTwoWords(env: Env, a: string, b: string, rest: string)
    requires IsBareWord(a) && IsBareWord(b)
    ensures ReadCommand(env, a + " " + (b + " " + rest))
         == PrependArg(a, PrependArg(b, ReadCommand(env, rest)))
  {
    ReadCommandBare(env, b, rest);
    ReadCommandBare(env, a, b + " " + rest);
  }

  /** The escaped command passes both hashes and the relative path to git as separate
      arguments, unchanged, and sends the output to the patch path, for every pair of paths. */
  lemma QuotedCommandReadsBack(env: Env, hash1: string, hash2: string, rel: string, out: string)
    requires LabelPattern.IsHash(hash1) && LabelPattern.IsHash(hash2)
    ensures ReadCommand(env, GitCommandQuoted(hash1, hash2, rel, out))
         == Some(IntendedInvocation(hash1, hash2, rel, out))
  {
    ReadCommandPrefix(env, hash1, hash2, Quote(rel), Quote(out));
    ReadPathAndRedirect(env, rel, out);
    PrependFront(hash1, hash2, [rel], out);
    assert ["git", "diff", hash1, hash2, "--"] + [rel] == IntendedInvocation(hash1, hash2, rel, out).args;
  }

  /** `"<rel>" > "<out>"` reads as the single argument rel and the redirection to out. */
  lemma ReadPathAndRedirect(env: Env, rel: string, out: string)
    ensures ReadCommand(env, Quote(rel) + " " + ("> " + Quote(out))) == Some(Invocation([rel], Some(out)))
  {
    ReadCommandRedirect(env, out);
    ReadCommandQuoted(env, rel, "> " + Quote(out));
    var inv := Invocation([], Some(out));
    assert PrependArg(rel, Some(inv)) == Some(inv.(args := [rel] + inv.args));
    assert inv.(args := [rel] + inv.args) == Invocation([rel], Some(out));
  }

  /** The five leading words end up in front of the path arguments, in order. */
  lemma PrependFront(hash1: string, hash2: string, paths: seq<string>, out: string)
    ensures PrependArg("git", PrependArg("diff", PrependArg(hash1, PrependArg(hash2,
              PrependArg("--", Some(Invocation(paths, Some(out))))))))
         == Some(Invocation(["git", "diff", hash1, hash2, "--"] + paths, Some(out)))
  {
    var r4 := PrependArg("--", Some(Invocation(paths, Some(out))));
    assert r4 == Some(Invocation(["--"] + paths, Some(out)));
    var r3 := PrependArg(hash2, r4);
    assert r3 == Some(Invocation([hash2] + (["--"] + paths), Some(out)));
    var r2 := PrependArg(hash1, r3);
    assert r2 == Some(Invocation([hash1] + ([hash2] + (["--"] + paths)), Some(out)));
    var r1 := PrependArg("diff", r2);
    assert r1 == Some(Invocation(["diff"] + ([hash1] + ([hash2] + (["--"] + paths))), Some(out)));
    var r0 := PrependArg("git", r1);
    assert r0 == Some(Invocation(["git"] + (["diff"] + ([hash1] + ([hash2] + (["--"] + paths)))), Some(out)));
    assert ["git"] + (["diff"] + ([hash1] + ([hash2] + (["--"] + paths))))
        == ["git", "diff", hash1, hash2, "--"] + paths;
  }

  /** Without escaping, `"` inside a path closes the quote early: `a" "b` between quotes is the
      two quoted words a and b. */
  lemma WrapSplits(x: string, y: string)
    requires HasNoQuoteSpecial(x) && HasNoQuoteSpecial(y)
    ensures Wrap(x + "\" \"" + y) == Quote(x) + " " + Quote(y)
  {
    EscapePlain(x);
    EscapePlain(y);
  }

  /** Two quoted words then the redirection read as two arguments. */
  lemma ReadTwoPathsAndRedirect(env: Env, x: string, y: string, out: string)
    ensures ReadCommand(env, Quote(x) + " " + (Quote(y) + " " + ("> " + Quote(out))))
         == Some(Invocation([x, y], Some(out)))
  {
    ReadPathAndRedirect(env, y, out);
    ReadCommandQuoted(env, x, Quote(y) + " " + ("> " + Quote(out)));
    var inv := Invocation([y], Some(out));
    assert PrependArg(x, Some(inv)) == Some(inv.(args := [x] + inv.args));
    assert inv.(args := [x] + inv.args) == Invocation([x, y], Some(out));
  }

  /** Two quoted words where the path belongs become two path arguments. */
  lemma ReadTwoPathCommand(env: Env, hash1: string, hash2: string, x: string, y: string, out: string)
    requires LabelPattern.IsHash(hash1) && LabelPattern.IsHash(hash2)
    ensures ReadCommand(env, CommandLine(hash1, hash2, Quote(x) + " " + Quote(y), Quote(out)))
         == Some(Invocation(["git", "diff", hash1, hash2, "--", x, y], Some(out)))
  {
    var w := Quote(x) + " " + Quote(y);
    ReadCommandPrefix(env, hash1, hash2, w, Quote(out));
    var c := "> " + Quote(out);
    assert w + " " + c == Quote(x) + " " + (Quote(y) + " " + c) by {
      Assoc(w, " ", c);
      Assoc(Quote(x) + " ", Quote(y), " " + c);
      Assoc(Quote(y), " ", c);
    }
    ReadTwoPathsAndRedirect(env, x, y, out);
    PrependFront(hash1, hash2, [x, y], out);
    assert ["git", "diff", hash1, hash2, "--"] + [x, y] == ["git", "diff", hash1, hash2, "--", x, y];
  }

  /** As written, a relative path `x" "y` reaches git as the two paths x and y. */
  lemma AsWrittenSplitsPath(env: Env, hash1: string, hash2: string, x: string, y: string, out: string)
    requires LabelPattern.IsHash(hash1) && LabelPattern.IsHash(hash2)
    requires HasNoQuoteSpecial(x) && HasNoQuoteSpecial(y) && HasNoQuoteSpecial(out)
    ensures ReadCommand(env, GitCommand(hash1, hash2, x + "\" \"" + y, out))
         == Some(Invocation(["git", "diff", hash1, hash2, "--", x, y], Some(out)))
    ensures ReadCommand(env, GitCommand(hash1, hash2, x + "\" \"" + y, out))
         != Some(IntendedInvocation(hash1, hash2, x + "\" \"" + y, out))
  {
    GitCommandWords(hash1, hash2, x + "\" \"" + y, out);
    WrapSplits(x, y);
    EscapePlain(out);
    ReadTwoPathCommand(env, hash1, hash2, x, y, out);
  }

  /** The patch path the command builds for a file below the POSIX workspace root `/ws`. */
  lemma PosixPatchPath(dir: string, file: string, hash1: string, hash2: string)
    requires |dir| > 0 && dir[|dir| - 1] == '/'
    requires file != [] && PathNames.IsSegment(PathNames.Posix, file)
    ensures PathNames.Join(PathNames.Posix, "/ws",
              PatchNames.PatchFileName(PathNames.Basename(PathNames.Posix, dir + file), hash1, hash2))
         == "/ws/" + PatchNames.PatchFileName(file, hash1, hash2)
  {
    PathNames.JoinedBasename(PathNames.Posix, dir, file);
    JoinInWs(PatchNames.PatchFileName(file, hash1, hash2));
  }

  /** Joining onto the root `/ws` inserts one `/`. */
  lemma JoinInWs(name: string)
    ensures PathNames.Join(PathNames.Posix, "/ws", name) == "/ws/" + name
  {
    PathNames.JoinIsRootThenName(PathNames.Posix, "/ws", name);
    assert "/ws" + [PathNames.Separator(PathNames.Posix)] + name == "/ws/" + name;
  }

  /** The patch path the command builds for the workspace file `/ws/a" "b/c.css`. */
  lemma SplitExamplePatchPath(hash1: string, hash2: string)
    ensures PathNames.Join(PathNames.Posix, "/ws",
              PatchNames.PatchFileName(PathNames.Basename(PathNames.Posix, "/ws/a\" \"b/c.css"), hash1, hash2))
         == "/ws/" + PatchNames.PatchFileName("c.css", hash1, hash2)
  {
    assert "/ws/a\" \"b/" + "c.css" == "/ws/a\" \"b/c.css";
    PosixPatchPath("/ws/a\" \"b/", "c.css", hash1, hash2);
  }

  /** The patch path the command builds for the workspace file `/ws/Foo$Bar.css`. */
  lemma DollarExamplePatchPath(hash1: string, hash2: string)
    ensures PathNames.Join(PathNames.Posix, "/ws",
              PatchNames.PatchFileName(PathNames.Basename(PathNames.Posix, "/ws/Foo$Bar.css"), hash1, hash2))
         == "/ws/" + PatchNames.PatchFileName("Foo$Bar.css", hash1, hash2)
  {
    assert "/ws/" + "Foo$Bar.css" == "/ws/Foo$Bar.css";
    PosixPatchPath("/ws/", "Foo$Bar.css", hash1, hash2);
  }

  lemma PlainConcat(a: string, b: string)
    requires HasNoQuoteSpecial(a) && HasNoQuoteSpecial(b)
    ensures HasNoQuoteSpecial(a + b)
  {
    assert forall i :: |a| <= i < |a + b| ==> (a + b)[i] == b[i - |a|];
  }

  /** A patch file name holds a special character only where its base name does. */
  lemma PlainPatchFileName(base: string, hash1: string, hash2: string)
    requires HasNoQuoteSpecial(base) && LabelPattern.IsHash(hash1) && LabelPattern.IsHash(hash2)
    ensures HasNoQuoteSpecial(PatchNames.PatchFileName(base, hash1, hash2))
  {
    LabelPattern.HashHasNoShellMetacharacters(hash1);
    LabelPattern.HashHasNoShellMetacharacters(hash2);
    var r := PatchNames.PatchFileName(base, hash1, hash2);
    forall i | 0 <= i < |r| ensures !IsQuoteSpecial(r[i]) {
      if i < |base| {
        assert r[i] == r[..|base|][i];
      } else if |base| < i < |base| + 1 + |hash1| {
        assert r[i] == hash1[i - |base| - 1];
      } else if |base| + 1 + |hash1| < i < |r| - 6 {
        assert r[i] == hash2[i - |base| - 2 - |hash1|];
      } else if i >= |r| - 6 {
        assert r[i] == PatchNames.PatchSuffix[i - (|r| - 6)];
      }
    }
  }

  /**
   * The concrete case: for any two commits, the workspace file `/ws/a" "b/c.css` is diffed as
   * the two files `a` and `b/c.css`. Its patch path `/ws/c.css.<hash1>_<hash2>.patch` holds no
   * quote.
   */
  lemma AsWrittenSplitsQuotedPath(env: Env, hash1: string, hash2: string)
    requires LabelPattern.IsHash(hash1) && LabelPattern.IsHash(hash2)
    ensures var out := "/ws/" + PatchNames.PatchFileName("c.css", hash1, hash2);
      var cmd := GitCommand(hash1, hash2, "a\" \"b/c.css", out);
      && ReadCommand(env, cmd) == Some(Invocation(["git", "diff", hash1, hash2, "--", "a", "b/c.css"], Some(out)))
      && ReadCommand(env, cmd) != Some(IntendedInvocation(hash1, hash2, "a\" \"b/c.css", out))
  {
    var out := "/ws/" + PatchNames.PatchFileName("c.css", hash1, hash2);
    assert HasNoQuoteSpecial(out) by {
      PlainPatchFileName("c.css", hash1, hash2);
      PlainConcat("/ws/", PatchNames.PatchFileName("c.css", hash1, hash2));
    }
    assert "a" + "\" \"" + "b/c.css" == "a\" \"b/c.css";
    AsWrittenSplitsPath(env, hash1, hash2, "a", "b/c.css", out);
  }

  /** Where the parts of `"x$name y" > "out"` sit once the opening quote is dropped. */
  lemma ExpandedPathSplit(x: string, name: string, y: string, rest: string, t: string)
    requires t == Wrap(x + "$" + name + y) + rest
    ensures |t| > 0 && t[0] == '"'
    ensures t[1..] == x + "$" + name + (y + "\"" + rest)
    ensures t[1 + (|x| + 1 + |name| + |y| + 1)..] == rest
  {
    var p := x + "$" + name + y;
    assert t == "\"" + (p + "\"" + rest);
    assert p + "\"" + rest == x + "$" + name + (y + "\"" + rest);
  }

  /** `"x$name y" > <out word>` reads as one argument with the variable's value in place of `$name`. */
  lemma ReadExpandedPathAndRedirect(env: Env, x: string, name: string, y: string, outWord: string, target: string)
    requires HasNoQuoteSpecial(x) && HasNoQuoteSpecial(y) && IsVariableName(name)
    requires |y| == 0 || !IsNameChar(y[0])
    requires ReadCommand(env, "> " + outWord) == Some(Invocation([], Some(target)))
    ensures ReadCommand(env, Wrap(x + "$" + name + y) + " " + ("> " + outWord))
         == Some(Invocation([x + Lookup(env, name) + y], Some(target)))
  {
    var rest := " " + ("> " + outWord);
    var t := Wrap(x + "$" + name + y) + rest;
    var v := x + Lookup(env, name) + y;
    var n := |x| + 1 + |name| + |y| + 1;
    assert |t| > 0 && t[0] == '"' && ReadQuoted(env, t[1..]) == Some((v, n)) && t[1 + n..] == rest by {
      ExpandedPathSplit(x, name, y, rest, t);
      ReadQuotedExpands(env, t[1..], x, name, y, rest);
    }
    assert t == Wrap(x + "$" + name + y) + " " + ("> " + outWord) by {
      Assoc(Wrap(x + "$" + name + y), " ", "> " + outWord);
    }
    ReadCommandQuotedWord(env, t, v, n, "> " + outWord);
    var inv := Invocation([], Some(target));
    assert PrependArg(v, Some(inv)) == Some(inv.(args := [v] + inv.args));
    assert inv.(args := [v] + inv.args) == Invocation([v], Some(target));
  }

  /** `> "x$name y"` sends standard output to x, the variable's value, then y. */
  lemma ReadExpandedRedirect(env: Env, x: string, name: string, y: string)
    requires HasNoQuoteSpecial(x) && HasNoQuoteSpecial(y) && IsVariableName(name)
    requires |y| == 0 || !IsNameChar(y[0])
    ensures ReadCommand(env, "> " + Wrap(x + "$" + name + y))
         == Some(Invocation([], Some(x + Lookup(env, name) + y)))
  {
    var w := Wrap(x + "$" + name + y);
    var t := "> " + w;
    var v := x + Lookup(env, name) + y;
    var n := |x| + 1 + |name| + |y| + 1;
    assert w == w + "";
    ExpandedPathSplit(x, name, y, "", w);
    ReadQuotedExpands(env, w[1..], x, name, y, "");
    ReadWordAfterQuote(env, w, v, n);
    assert t[1..] == " " + w;
    assert Blanks(t[1..]) == 1;
    assert t[2..] == w;
    assert t[2 + (1 + n)..] == "";
  }

  /** Text around two different middles differs. */
  lemma DifferentMiddles(x: string, a: string, b: string, y: string)
    requires a != b
    ensures x + a + y != x + b + y
  {
    var s, t := x + a + y, x + b + y;
    if |a| != |b| {
      assert |s| != |t|;
    } else {
      var i :| 0 <= i < |a| && a[i] != b[i];
      assert s[|x| + i] == a[i];
      assert t[|x| + i] == b[i];
    }
  }

  /**
   * As written, a relative path `x$name y` reaches git with the value of the shell variable
   * name in place of `$name` (nothing, when it is unset), so git is asked about another file.
   */
  lemma AsWrittenExpandsVariable(env: Env, hash1: string, hash2: string, x: string, name: string, y: string, out: string)
    requires LabelPattern.IsHash(hash1) && LabelPattern.IsHash(hash2)
    requires HasNoQuoteSpecial(x) && HasNoQuoteSpecial(y) && HasNoQuoteSpecial(out)
    requires IsVariableName(name) && (|y| == 0 || !IsNameChar(y[0]))
    ensures ReadCommand(env, GitCommand(hash1, hash2, x + "$" + name + y, out))
         == Some(IntendedInvocation(hash1, hash2, x + Lookup(env, name) + y, out))
    ensures Lookup(env, name) != "$" + name
        ==> (ReadCommand(env, GitCommand(hash1, hash2, x + "$" + name + y, out))
             != Some(IntendedInvocation(hash1, hash2, x + "$" + name + y, out)))
  {
    var p := x + "$" + name + y;
    var v := x + Lookup(env, name) + y;
    GitCommandWords(hash1, hash2, p, out);
    EscapePlain(out);
    ReadCommandPrefix(env, hash1, hash2, Wrap(p), Wrap(out));
    ReadCommandRedirect(env, out);
    ReadExpandedPathAndRedirect(env, x, name, y, Quote(out), out);
    PrependFront(hash1, hash2, [v], out);
    assert ["git", "diff", hash1, hash2, "--"] + [v] == IntendedInvocation(hash1, hash2, v, out).args;
    if Lookup(env, name) != "$" + name {
      Assoc(x, "$", name);
      DifferentMiddles(x, Lookup(env, name), "$" + name, y);
    }
  }

  /**
   * As written, when the patch path holds `$name` too, the shell also expands it there: the
   * patch is written to another file than the one the command later reveals.
   */
  lemma AsWrittenExpandsBothPaths(env: Env, hash1: string, hash2: string,
                                  x: string, name: string, y: string, ox: string, oname: string, oy: string)
    requires LabelPattern.IsHash(hash1) && LabelPattern.IsHash(hash2)
    requires HasNoQuoteSpecial(x) && HasNoQuoteSpecial(y) && IsVariableName(name)
    requires |y| == 0 || !IsNameChar(y[0])
    requires HasNoQuoteSpecial(ox) && HasNoQuoteSpecial(oy) && IsVariableName(oname)
    requires |oy| == 0 || !IsNameChar(oy[0])
    ensures ReadCommand(env, GitCommand(hash1, hash2, x + "$" + name + y, ox + "$" + oname + oy))
         == Some(IntendedInvocation(hash1, hash2, x + Lookup(env, name) + y, ox + Lookup(env, oname) + oy))
  {
    var p, q := x + "$" + name + y, ox + "$" + oname + oy;
    var v := x + Lookup(env, name) + y;
    var w := ox + Lookup(env, oname) + oy;
    GitCommandWords(hash1, hash2, p, q);
    ReadCommandPrefix(env, hash1, hash2, Wrap(p), Wrap(q));
    ReadExpandedRedirect(env, ox, oname, oy);
    ReadExpandedPathAndRedirect(env, x, name, y, Wrap(q), w);
    PrependFront(hash1, hash2, [v], w);
    assert ["git", "diff", hash1, hash2, "--"] + [v] == IntendedInvocation(hash1, hash2, v, w).args;
  }

  /** Both patch paths of the `Foo$Bar.css` case, split around the variable. */
  lemma DollarExamplePaths(env: Env, hash1: string, hash2: string, tail: string)
    requires "Bar" !in env && tail == PatchNames.PatchFileName(".css", hash1, hash2)
    ensures "/ws/" + PatchNames.PatchFileName("Foo$Bar.css", hash1, hash2) == "/ws/Foo" + "$" + "Bar" + tail
    ensures "/ws/" + PatchNames.PatchFileName("Foo.css", hash1, hash2) == "/ws/Foo" + Lookup(env, "Bar") + tail
  {
    assert "/ws/" + PatchNames.PatchFileName("Foo$Bar.css", hash1, hash2) == "/ws/Foo" + "$" + "Bar" + tail by {
      PatchNames.PatchFileNameAfter("Foo$Bar", ".css", hash1, hash2);
      assert "Foo$Bar" + ".css" == "Foo$Bar.css";
      Assoc("/ws/", "Foo$Bar", tail);
      assert "/ws/" + "Foo$Bar" == "/ws/Foo" + "$" + "Bar";
    }
    PatchNames.PatchFileNameAfter("Foo", ".css", hash1, hash2);
    assert "Foo" + ".css" == "Foo.css";
    Assoc("/ws/", "Foo", tail);
    assert "/ws/" + "Foo" == "/ws/Foo" + Lookup(env, "Bar");
  }

  /**
   * The concrete case: with `Bar` unset, for any two commits, the workspace file `/ws/Foo$Bar.css`
   * is diffed as `Foo.css`, and the patch lands in `/ws/Foo.css.<hash1>_<hash2>.patch` rather than
   * in the `/ws/Foo$Bar.css.<hash1>_<hash2>.patch` that the plan names and later reveals.
   */
  lemma AsWrittenDropsUnsetVariable(env: Env, hash1: string, hash2: string)
    requires "Bar" !in env
    requires LabelPattern.IsHash(hash1) && LabelPattern.IsHash(hash2)
    ensures ReadCommand(env, GitCommand(hash1, hash2, "Foo$Bar.css",
                                        "/ws/" + PatchNames.PatchFileName("Foo$Bar.css", hash1, hash2)))
         == Some(IntendedInvocation(hash1, hash2, "Foo.css", "/ws/" + PatchNames.PatchFileName("Foo.css", hash1, hash2)))
  {
    var tail := PatchNames.PatchFileName(".css", hash1, hash2);
    assert HasNoQuoteSpecial(tail) && tail[0] == '.' by {
      PlainPatchFileName(".css", hash1, hash2);
    }
    assert IsVariableName("Bar");
    DollarExamplePaths(env, hash1, hash2, tail);
    assert "Foo" + "$" + "Bar" + ".css" == "Foo$Bar.css";
    assert "Foo" + Lookup(env, "Bar") + ".css" == "Foo.css";
    AsWrittenExpandsBothPaths(env, hash1, hash2, "Foo", "Bar", ".css", "/ws/Foo", "Bar", tail);
  }
}
