/**
 * The diff-tab label pattern of src/extension.ts:
 *
 *   \((\w{7,40})\)\s*↔\s*.*\((\w{7,40})\)
 *
 * hand-coded for this one pattern.  `IsMatch` says declaratively where the pattern can match;
 * `IsJsMatch` picks the match that `String.prototype.match` reports (leftmost start, then the
 * greedy `.*` pushes the second group as far right as the line allows); `ParseLabel` computes it.
 */
module LabelPattern {
  import opened Wrappers
  import opened RegexChars

  const MinHash: nat := 7
  const MaxHash: nat := 40

  /** Positions of one match: the two `(`…`)` groups and the arrow between them. */
  datatype Span = Span(open1: nat, close1: nat, arrow: nat, open2: nat, close2: nat)

  // ---------------------------------------------------------------------------
  // Declarative description of a match
  // ---------------------------------------------------------------------------

  ghost predicate AllWord(l: string, i: nat, j: nat)
    requires i <= j <= |l|
  {
    forall t :: i <= t < j ==> IsWordChar(l[t])
  }

  ghost predicate AllSpace(l: string, i: nat, j: nat)
    requires i <= j <= |l|
  {
    forall t :: i <= t < j ==> IsSpace(l[t])
  }

  ghost predicate NoTerminator(l: string, i: nat, j: nat)
    requires i <= j <= |l|
  {
    forall t :: i <= t < j ==> !IsLineTerminator(l[t])
  }

  /** `\((\w{7,40})\)` matches l[o..c+1]. */
  ghost predicate Token(l: string, o: nat, c: nat) {
    && o < c < |l|
    && l[o] == '(' && l[c] == ')'
    && MinHash <= c - o - 1 <= MaxHash
    && AllWord(l, o + 1, c)
  }

  /** `\s*.*` matches l[i..j]: some whitespace, then characters other than line terminators. */
  ghost predicate LineGap(l: string, i: nat, j: nat)
    requires i <= j <= |l|
  {
    exists k :: i <= k <= j && AllSpace(l, i, k) && NoTerminator(l, k, j)
  }

  /** `\((\w{7,40})\)\s*↔` matches from `(` at s, with `)` at c and the arrow at a. */
  ghost predicate HeadAt(l: string, s: nat, c: nat, a: nat) {
    && Token(l, s, c)
    && c < a < |l|
    && AllSpace(l, c + 1, a)
    && l[a] == Arrow
  }

  /** `\s*.*\((\w{7,40})\)` matches right after the arrow at a, with the second group at q..e. */
  ghost predicate TailAt(l: string, a: nat, q: nat, e: nat) {
    && Token(l, q, e)
    && a < q
    && LineGap(l, a + 1, q)
  }

  /** The whole pattern matches with the positions recorded in m. */
  ghost predicate IsMatch(l: string, m: Span) {
    HeadAt(l, m.open1, m.close1, m.arrow) && TailAt(l, m.arrow, m.open2, m.close2)
  }

  /** The match a JavaScript regex without the `g` flag reports: the leftmost start, and among
      matches with that start the one whose second group begins furthest right. */
  ghost predicate IsJsMatch(l: string, m: Span) {
    && IsMatch(l, m)
    && forall m' :: IsMatch(l, m') ==>
         m.open1 < m'.open1 || (m.open1 == m'.open1 && m'.open2 <= m.open2)
  }

  /** A captured hash: 7 to 40 word characters. */
  predicate IsHash(h: string) {
    MinHash <= |h| <= MaxHash && forall i :: 0 <= i < |h| ==> IsWordChar(h[i])
  }

  function Captures(l: string, m: Span): (string, string)
    requires IsMatch(l, m)
  {
    (l[m.open1 + 1..m.close1], l[m.open2 + 1..m.close2])
  }

  // ---------------------------------------------------------------------------
  // Scanners
  // ---------------------------------------------------------------------------

  /** End of the run of word characters starting at i. */
  function WordEnd(l: string, i: nat): (j: nat)
    requires i <= |l|
    ensures i <= j <= |l| && AllWord(l, i, j)
    ensures j == |l| || !IsWordChar(l[j])
    decreases |l| - i
  {
    if i < |l| && IsWordChar(l[i]) then WordEnd(l, i + 1) else i
  }

  /** End of the run of `\s` characters starting at i. */
  function SpaceEnd(l: string, i: nat): (j: nat)
    requires i <= |l|
    ensures i <= j <= |l| && AllSpace(l, i, j)
    ensures j == |l| || !IsSpace(l[j])
    decreases |l| - i
  {
    if i < |l| && IsSpace(l[i]) then SpaceEnd(l, i + 1) else i
  }

  /** Index of the first line terminator at or after i, or |l|. */
  function LineEnd(l: string, i: nat): (j: nat)
    requires i <= |l|
    ensures i <= j <= |l| && NoTerminator(l, i, j)
    ensures j == |l| || IsLineTerminator(l[j])
    decreases |l| - i
  {
    if i < |l| && !IsLineTerminator(l[i]) then LineEnd(l, i + 1) else i
  }

  /** The `)` closing a token that opens at o, if there is one. */
  function TokenClose(l: string, o: nat): (r: Option<nat>)
    ensures r.Some? ==> Token(l, o, r.value)
    ensures r.None? ==> forall c :: !Token(l, o, c)
  {
    if o < |l| && l[o] == '(' then
      var c := WordEnd(l, o + 1);
      if c < |l| && l[c] == ')' && MinHash <= c - o - 1 <= MaxHash then Some(c)
      else
        assert forall c' :: Token(l, o, c') ==> c' == c by {
          forall c' | Token(l, o, c') ensures c' == c {
            TokenCloseUnique(l, o, c', c);
          }
        }
        None
    else None
  }

  /** `)` after o is never a word character, so the word run fixes where a token closes. */
  lemma TokenCloseUnique(l: string, o: nat, c: nat, c0: nat)
    requires Token(l, o, c)
    requires o + 1 <= c0 <= |l| && AllWord(l, o + 1, c0) && (c0 == |l| || !IsWordChar(l[c0]))
    ensures c == c0
  {
  }

  /** The closing `)` and the arrow of a match starting at s, if any. */
  function Head(l: string, s: nat): (r: Option<(nat, nat)>)
    ensures r.Some? ==> HeadAt(l, s, r.value.0, r.value.1)
    ensures r.None? ==> forall c, a :: !HeadAt(l, s, c, a)
  {
    match TokenClose(l, s)
    case None => None
    case Some(c) =>
      var a := SpaceEnd(l, c + 1);
      if a < |l| && l[a] == Arrow then Some((c, a))
      else
        assert forall c', a' :: HeadAt(l, s, c', a') ==> false by {
          forall c', a' | HeadAt(l, s, c', a') ensures false {
            HeadUnique(l, s, c', a', c, a);
          }
        }
        None
  }

  /** A match start determines the first group and the arrow. */
  lemma HeadUnique(l: string, s: nat, c: nat, a: nat, c0: nat, a0: nat)
    requires HeadAt(l, s, c, a)
    requires Token(l, s, c0) && c0 + 1 <= a0 <= |l| && AllSpace(l, c0 + 1, a0)
    requires a0 == |l| || !IsSpace(l[a0])
    ensures c == c0 && a == a0
  {
    TokenCloseUnique(l, s, c, WordEnd(l, s + 1));
    TokenCloseUnique(l, s, c0, WordEnd(l, s + 1));
    assert !IsSpace(Arrow);
  }

  /** The rightmost token opening in [lo, hi), with its closing `)`. */
  function LastToken(l: string, lo: nat, hi: nat): (r: Option<(nat, nat)>)
    requires lo <= hi
    ensures r.Some? ==> lo <= r.value.0 < hi && Token(l, r.value.0, r.value.1)
    ensures r.Some? ==> forall q: nat, e: nat :: Token(l, q, e) && r.value.0 < q ==> hi <= q
    ensures r.None? ==> forall q: nat, e: nat :: Token(l, q, e) ==> q < lo || hi <= q
    decreases hi - lo
  {
    if hi == lo then None
    else
      match TokenClose(l, hi - 1)
      case Some(e) => Some((hi - 1, e))
      case None => LastToken(l, lo, hi - 1)
  }

  /** The gap after the arrow is valid exactly up to the first line terminator that follows the
      whitespace run: `\s*` may swallow line breaks, `.*` may not. */
  lemma LineGapBound(l: string, i: nat, q: nat)
    requires i <= q < |l| && !IsSpace(l[q])
    ensures LineGap(l, i, q) <==> q < LineEnd(l, SpaceEnd(l, i))
  {
    var g := SpaceEnd(l, i);
    var le := LineEnd(l, g);
    assert g <= q;
    if LineGap(l, i, q) {
      var k :| i <= k <= q && AllSpace(l, i, k) && NoTerminator(l, k, q);
      assert k <= g;
    }
    if q < le {
      assert AllSpace(l, i, g) && NoTerminator(l, g, q);
    }
  }

  /** Where the second group of a match whose arrow is at a may open. */
  lemma TailRange(l: string, a: nat)
    requires a < |l|
    ensures forall q: nat, e: nat :: TailAt(l, a, q, e) <==>
      a + 1 <= q < LineEnd(l, SpaceEnd(l, a + 1)) && Token(l, q, e)
  {
    forall q: nat, e: nat | Token(l, q, e) && a + 1 <= q
      ensures TailAt(l, a, q, e) <==> q < LineEnd(l, SpaceEnd(l, a + 1))
    {
      assert !IsSpace('(');
      LineGapBound(l, a + 1, q);
    }
  }

  /** The JavaScript match among those starting at s or later. */
  function MatchFrom(l: string, s: nat): (r: Option<Span>)
    requires s <= |l|
    ensures r.Some? ==> IsMatch(l, r.value) && s <= r.value.open1
    ensures r.Some? ==> forall m :: IsMatch(l, m) && s <= m.open1 ==>
      r.value.open1 < m.open1 || (r.value.open1 == m.open1 && m.open2 <= r.value.open2)
    ensures r.None? ==> forall m :: IsMatch(l, m) ==> m.open1 < s
    decreases |l| - s
  {
    if s == |l| then None
    else
      match Head(l, s)
      case None =>
        NoHeadAt(l, s);
        MatchFrom(l, s + 1)
      case Some((c, a)) =>
        match LastToken(l, a + 1, LineEnd(l, SpaceEnd(l, a + 1)))
        case None =>
          NoTailAt(l, s, c, a);
          MatchFrom(l, s + 1)
        case Some((q, e)) =>
          LastTailAt(l, s, c, a, q, e);
          Some(Span(s, c, a, q, e))
  }

  /** Without a head at s, no match starts at s. */
  lemma NoHeadAt(l: string, s: nat)
    requires Head(l, s).None?
    ensures forall m :: IsMatch(l, m) ==> m.open1 != s
  {
  }

  /** With no token on the arrow's line, no match starts at s. */
  lemma NoTailAt(l: string, s: nat, c: nat, a: nat)
    requires HeadAt(l, s, c, a)
    requires LastToken(l, a + 1, LineEnd(l, SpaceEnd(l, a + 1))).None?
    ensures forall m :: IsMatch(l, m) ==> m.open1 != s
  {
    TailRange(l, a);
    HeadFixed(l, s, c, a);
  }

  /** The last token on the arrow's line gives the greedy match starting at s. */
  lemma LastTailAt(l: string, s: nat, c: nat, a: nat, q: nat, e: nat)
    requires HeadAt(l, s, c, a)
    requires LastToken(l, a + 1, LineEnd(l, SpaceEnd(l, a + 1))) == Some((q, e))
    ensures IsMatch(l, Span(s, c, a, q, e))
    ensures forall m :: IsMatch(l, m) && m.open1 == s ==> m.open2 <= q
  {
    TailRange(l, a);
    HeadFixed(l, s, c, a);
  }

  /** Every match starting at s shares the head found by `Head`. */
  lemma HeadFixed(l: string, s: nat, c: nat, a: nat)
    requires HeadAt(l, s, c, a)
    ensures forall m :: IsMatch(l, m) && m.open1 == s ==> m.close1 == c && m.arrow == a
  {
    forall m | IsMatch(l, m) && m.open1 == s ensures m.close1 == c && m.arrow == a {
      assert !IsSpace(Arrow);
      HeadUnique(l, s, m.close1, m.arrow, c, a);
    }
  }

  // ---------------------------------------------------------------------------
  // The parser
  // ---------------------------------------------------------------------------

  /**
   * `label.match(...)` followed by `match[1]`, `match[2]`: the two commit tokens of the
   * match JavaScript reports, or None when the pattern matches nowhere in the label.
   */
  function ParseLabel(text: string): (r: Option<(string, string)>)
    ensures r.Some? <==> exists m :: IsMatch(text, m)
    ensures r.Some? ==> exists m :: IsJsMatch(text, m) && r.value == Captures(text, m)
    ensures r.Some? ==> IsHash(r.value.0) && IsHash(r.value.1)
  {
    match MatchFrom(text, 0)
    case None => None
    case Some(m) =>
      CapturesAreHashes(text, m);
      assert IsJsMatch(text, m);
      Some(Captures(text, m))
  }

  /** Both groups of any match are 7 to 40 word characters. */
  lemma CapturesAreHashes(l: string, m: Span)
    requires IsMatch(l, m)
    ensures IsHash(Captures(l, m).0) && IsHash(Captures(l, m).1)
  {
  }

  /** There is at most one JavaScript match, so `ParseLabel` is determined by `IsJsMatch`. */
  lemma {:induction false} JsMatchUnique(l: string, m: Span, m': Span)
    requires IsJsMatch(l, m) && IsJsMatch(l, m')
    ensures m == m'
  {
    assert m.open1 == m'.open1 && m.open2 == m'.open2;
    HeadFixed(l, m.open1, m.close1, m.arrow);
    TokenCloseUnique(l, m.open2, m'.close2, WordEnd(l, m.open2 + 1));
    TokenCloseUnique(l, m.open2, m.close2, WordEnd(l, m.open2 + 1));
  }

  /** Without a `↔` character the label never parses. */
  lemma NoArrowNoParse(text: string)
    requires forall i :: 0 <= i < |text| ==> text[i] != Arrow
    ensures ParseLabel(text) == None
  {
  }

  /** Every parsed hash is a single shell word: no whitespace, quote, `$`, backquote or `>`. */
  lemma HashHasNoShellMetacharacters(h: string)
    requires IsHash(h)
    ensures forall i :: 0 <= i < |h| ==>
      !IsSpace(h[i]) && h[i] !in {'"', '\'', '>', '<', '$', '`', '\\', ';', '&', '|'}
  {
    forall i | 0 <= i < |h|
      ensures !IsSpace(h[i]) && h[i] !in {'"', '\'', '>', '<', '$', '`', '\\', ';', '&', '|'}
    {
      assert IsWordChar(h[i]);
    }
  }

  /** The label VS Code shows for a diff between two commits of one file. */
  function DiffLabel(file1: string, hash1: string, file2: string, hash2: string): string {
    file1 + " (" + hash1 + ") " + [Arrow] + " " + file2 + " (" + hash2 + ")"
  }

  /** Where each part of a `DiffLabel` sits. */
  lemma DiffLabelLayout(file1: string, hash1: string, file2: string, hash2: string)
    ensures var l := DiffLabel(file1, hash1, file2, hash2);
      var o1 := |file1| + 1;
      var c1 := o1 + 1 + |hash1|;
      var a := c1 + 2;
      var o2 := a + 2 + |file2| + 1;
      var c2 := o2 + 1 + |hash2|;
      && |l| == c2 + 1
      && (forall t :: 0 <= t < |file1| ==> l[t] == file1[t])
      && (forall t :: o1 < t < c1 ==> l[t] == hash1[t - o1 - 1])
      && (forall t :: a + 2 <= t < o2 - 1 ==> l[t] == file2[t - a - 2])
      && (forall t :: o2 < t < c2 ==> l[t] == hash2[t - o2 - 1])
      && l[o1 - 1] == ' ' && l[o1] == '(' && l[c1] == ')' && l[c1 + 1] == ' '
      && l[a] == Arrow && l[a + 1] == ' ' && l[o2 - 1] == ' ' && l[o2] == '(' && l[c2] == ')'
  {
    var p1 := file1 + " (";
    assert forall t :: 0 <= t < |file1| ==> p1[t] == file1[t];
    var p2 := p1 + hash1;
    assert forall t :: 0 <= t < |file1| ==> p2[t] == file1[t];
    var p3 := p2 + ") " + [Arrow] + " ";
    assert forall t :: 0 <= t < |p2| ==> p3[t] == p2[t];
    var p4 := p3 + file2;
    assert forall t :: 0 <= t < |p3| ==> p4[t] == p3[t];
    var p5 := p4 + " (";
    assert forall t :: 0 <= t < |p4| ==> p5[t] == p4[t];
    var l := p5 + hash2 + ")";
    assert forall t :: 0 <= t < |p5| ==> l[t] == p5[t];
    assert l == DiffLabel(file1, hash1, file2, hash2);
  }

  /** The positions of the match in a `DiffLabel`. */
  function DiffLabelSpan(file1: string, hash1: string, file2: string, hash2: string): Span {
    var o1 := |file1| + 1;
    var c1 := o1 + 1 + |hash1|;
    var a := c1 + 2;
    var o2 := a + 3 + |file2|;
    Span(o1, c1, a, o2, o2 + 1 + |hash2|)
  }

  /** In a `DiffLabel`, the match JavaScript reports is the one around the two hashes. */
  lemma DiffLabelJsMatch(file1: string, hash1: string, file2: string, hash2: string)
    requires IsHash(hash1) && IsHash(hash2)
    requires forall i :: 0 <= i < |file1| ==> file1[i] != '('
    requires forall i :: 0 <= i < |file2| ==> !IsLineTerminator(file2[i])
    ensures IsJsMatch(DiffLabel(file1, hash1, file2, hash2), DiffLabelSpan(file1, hash1, file2, hash2))
  {
    var l := DiffLabel(file1, hash1, file2, hash2);
    DiffLabelLayout(file1, hash1, file2, hash2);
    var m := DiffLabelSpan(file1, hash1, file2, hash2);
    assert Token(l, m.open1, m.close1);
    assert Token(l, m.open2, m.close2);
    assert HeadAt(l, m.open1, m.close1, m.arrow);
    assert LineGap(l, m.arrow + 1, m.open2) by {
      assert AllSpace(l, m.arrow + 1, m.arrow + 2) && NoTerminator(l, m.arrow + 2, m.open2);
    }
    assert IsMatch(l, m);
    forall m' | IsMatch(l, m') ensures m.open1 <= m'.open1 && m'.open2 <= m.open2 {
      assert l[m'.open1] == '(' && l[m'.open2] == '(';
    }
  }

  /** The captures at `DiffLabelSpan` are the two hashes. */
  lemma DiffLabelCaptures(file1: string, hash1: string, file2: string, hash2: string)
    ensures var l := DiffLabel(file1, hash1, file2, hash2);
      var m := DiffLabelSpan(file1, hash1, file2, hash2);
      m.close2 < |l| && l[m.open1 + 1..m.close1] == hash1 && l[m.open2 + 1..m.close2] == hash2
  {
    var l := DiffLabel(file1, hash1, file2, hash2);
    DiffLabelLayout(file1, hash1, file2, hash2);
    var m := DiffLabelSpan(file1, hash1, file2, hash2);
    SliceIs(l, m.open1 + 1, hash1);
    SliceIs(l, m.open2 + 1, hash2);
  }

  lemma SliceIs(l: string, i: nat, h: string)
    requires i + |h| <= |l|
    requires forall t :: i <= t < i + |h| ==> l[t] == h[t - i]
    ensures l[i..i + |h|] == h
  {
  }

  /** `ParseLabel` returns the captures of the JavaScript match, whichever way it was found. */
  lemma ParseLabelOfJsMatch(l: string, m: Span)
    requires IsJsMatch(l, m)
    ensures ParseLabel(l) == Some(Captures(l, m))
  {
    var mj :| IsJsMatch(l, mj) && ParseLabel(l).value == Captures(l, mj);
    JsMatchUnique(l, m, mj);
  }

  /** A label of the shape `X (h1) ↔ Y (h2)` yields exactly (h1, h2), provided the left file
      name holds no `(` (so no earlier match starts) and the right one no line break. */
  lemma {:induction false} DiffLabelParses(file1: string, hash1: string, file2: string, hash2: string)
    requires IsHash(hash1) && IsHash(hash2)
    requires forall i :: 0 <= i < |file1| ==> file1[i] != '('
    requires forall i :: 0 <= i < |file2| ==> !IsLineTerminator(file2[i])
    ensures ParseLabel(DiffLabel(file1, hash1, file2, hash2)) == Some((hash1, hash2))
  {
    var l := DiffLabel(file1, hash1, file2, hash2);
    var m := DiffLabelSpan(file1, hash1, file2, hash2);
    DiffLabelJsMatch(file1, hash1, file2, hash2);
    ParseLabelOfJsMatch(l, m);
    DiffLabelCaptures(file1, hash1, file2, hash2);
  }

  /** The example label is a `DiffLabel`. */
  lemma ExampleLabelShape()
    ensures DiffLabel("auxiliaryBarPart.css", "24a2f307", "auxiliaryBarPart.css", "22d1bfc7")
         == "auxiliaryBarPart.css (24a2f307) ↔ auxiliaryBarPart.css (22d1bfc7)"
  {
    var left := "auxiliaryBarPart.css" + " (" + "24a2f307" + ") ";
    assert left == "auxiliaryBarPart.css (24a2f307) ";
    var middle := left + [Arrow] + " ";
    assert middle == "auxiliaryBarPart.css (24a2f307) ↔ ";
    var right := middle + "auxiliaryBarPart.css" + " (";
    assert right == "auxiliaryBarPart.css (24a2f307) ↔ auxiliaryBarPart.css (";
  }

  /** The label format quoted in the source's comment yields its two commits, in order. */
  lemma ExampleLabelParses()
    ensures ParseLabel("auxiliaryBarPart.css (24a2f307) ↔ auxiliaryBarPart.css (22d1bfc7)")
         == Some(("24a2f307", "22d1bfc7"))
  {
    ExampleLabelShape();
    DiffLabelParses("auxiliaryBarPart.css", "24a2f307", "auxiliaryBarPart.css", "22d1bfc7");
  }
}
