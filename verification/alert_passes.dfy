/** How the three passes of `convert_info_macros` share out an alert of one
    kind around some text. Written inside one paragraph, the inline pass
    rewrites it and the block pass before and the bare pass after leave it
    alone. Written as a paragraph holding only the opening delimiter, the
    text, and a paragraph holding only the closing delimiter, the block pass
    rewrites it and the two later passes leave it alone. */
module AlertPasses {
  import opened Strings
  import opened Alerts

  /** A delimiter starts at index `j` of `s`. */
  predicate DelimAt(s: string, j: int) {
    0 <= j && j + 2 <= |s| && IsDelimiter(s[j..j + 2])
  }

  /** Text an inline alert may wrap: it holds no delimiter and no paragraph
      tag, and neither starts nor ends with `~`. */
  ghost predicate PlainText(x: string) {
    && NoDelimiters(x) && !Contains(x, "<p>") && !Contains(x, "</p>")
    && (|x| == 0 || (x[0] != '~' && x[|x| - 1] != '~'))
  }

  /** A paragraph holding the text `x` between the opening and the closing
      delimiter of the kind with character `c`. */
  function InlineAlert(c: char, x: string): string {
    "<p>~" + [c] + x + [c] + "~</p>"
  }

  // ---------------------------------------------------------------------
  // The main property

  /** A paragraph `<p>~:X:~</p>` (and likewise for tip, note and warning)
      becomes that kind's opening tag, the text, and the closing tag: no
      block rule matches it, and no bare rule matches what the inline pass
      leaves. */
  lemma InlineParagraph(k: nat, x: string)
    requires k < 4 && PlainText(x)
    ensures ConvertInfoMacros(InlineAlert(Kinds[k], x)) == OpenTag(KindName(k)) + x + CloseTag
  {
    var c := Kinds[k];
    var s := InlineAlert(c, x);
    var t := OpenTag(KindName(k));
    var done := t + x + CloseTag;
    RulesReplaceable();
    assert c in ":%?!" by { assert Kinds == ":%?!"; }
    assert ApplyRules(s, BlockRules) == s by {
      BlockPassIdle(k, x);
    }
    assert ApplyRules(s, InlineRules) == done by {
      InlinePass(k, x);
    }
    assert ApplyRules(done, BareRules) == done by {
      TagNameClean(k);
      FinalNoDelimiters(t, x);
      PassesDelimitedPatterns();
      PatternsAbsent(done, BareRules);
      RulesIdle(done, BareRules);
    }
  }

  // ---------------------------------------------------------------------
  // Where the delimiters are

  /** The two characters of a delimiter at `j`. */
  lemma DelimAtChars(s: string, j: int)
    requires 0 <= j && j + 2 <= |s|
    ensures DelimAt(s, j) <==>
      (s[j] == '~' && s[j + 1] in ":%?!") || (s[j + 1] == '~' && s[j] in ":%?!")
  {
    assert s[j..j + 2][0] == s[j] && s[j..j + 2][1] == s[j + 1];
  }

  /** An occurrence fixes the characters it covers. */
  lemma OccursChar(s: string, p: string, j: int, k: nat)
    requires k < |p|
    ensures OccursAt(s, p, j) ==> s[j + k] == p[k]
  {
    if OccursAt(s, p, j) {
      assert s[j..j + |p|][k] == s[j + k];
    }
  }

  /** An occurrence fixes the stretch it covers. */
  lemma OccursPart(s: string, p: string, j: int, a: nat, b: nat)
    requires a <= b <= |p|
    ensures OccursAt(s, p, j) ==> s[j + a..j + b] == p[a..b]
  {
    if OccursAt(s, p, j) {
      SliceOfSlice(s, j, j + |p|, a, b);
    }
  }

  /** An occurrence of a pattern brings the delimiter inside it along. */
  lemma PatternDelim(s: string, p: string, o: nat, j: int)
    requires o + 2 <= |p| && IsDelimiter(p[o..o + 2])
    ensures OccursAt(s, p, j) ==> DelimAt(s, j + o)
  {
    OccursPart(s, p, j, o, o + 2);
  }

  /** No delimiter lies wholly inside an occurrence of delimiter-free text. */
  lemma DelimInside(s: string, x: string, i: int, j: int)
    requires OccursAt(s, x, i) && i <= j && j + 2 <= i + |x| && NoDelimiters(x)
    ensures !DelimAt(s, j)
  {
    var q := s[j..j + 2];
    assert x[j - i..j - i + 2] == q by {
      SliceOfSlice(s, i, i + |x|, j - i, j - i + 2);
    }
    ContainsAt(x, q, j - i);
  }

  /** A pattern that does not occur is not found at any index. */
  lemma NotAt(x: string, p: string, i: nat)
    requires i + |p| <= |x| && !Contains(x, p)
    ensures x[i..i + |p|] != p
  {
    if x[i..i + |p|] == p {
      ContainsAt(x, p, i);
    }
  }

  /** In an inline alert paragraph the only delimiters are the opening one
      after `<p>` and the closing one before `</p>`. */
  lemma ParagraphDelims(c: char, x: string)
    requires c in ":%?!" && PlainText(x)
    ensures forall j :: DelimAt(InlineAlert(c, x), j) ==> j == 3 || j == |x| + 5
  {
    var s := InlineAlert(c, x);
    var n := |x|;
    assert s == "<p>~" + [c] + x + ([c] + "~</p>");
    assert s[0] == '<' && s[1] == 'p' && s[2] == '>' && s[3] == '~' && s[4] == c;
    assert s[n + 5] == c && s[n + 6] == '~' && s[n + 7] == '<';
    assert s[n + 8] == '/' && s[n + 9] == 'p' && s[n + 10] == '>';
    assert OccursAt(s, x, 5) by {
      assert s[5..5 + n] == x;
    }
    forall j | 0 <= j && j + 2 <= |s| && j != 3 && j != n + 5
      ensures !DelimAt(s, j)
    {
      DelimAtChars(s, j);
      if 5 <= j && j + 2 <= n + 5 {
        DelimInside(s, x, 5, j);
      } else if j == 4 && n > 0 {
        assert s[5] == x[0];
      } else if j == n + 4 && n > 0 {
        assert s[n + 4] == x[n - 1];
      }
    }
  }

  /** The paragraph tags of an inline alert paragraph are only at its ends. */
  lemma ParagraphEnds(c: char, x: string)
    requires c in ":%?!" && PlainText(x)
    ensures InlineAlert(c, x)[5..9] != "</p>"
    ensures InlineAlert(c, x)[|x| + 2..|x| + 5] != "<p>"
  {
    var s := InlineAlert(c, x);
    var n := |x|;
    assert s == "<p>~" + [c] + x + ([c] + "~</p>");
    if n >= 4 {
      assert x[0..4] == s[5..9];
      NotAt(x, "</p>", 0);
    } else {
      assert s[5..9][n] == s[5 + n] == c;
    }
    if n >= 3 {
      assert x[n - 3..n] == s[n + 2..n + 5];
      NotAt(x, "<p>", n - 3);
    } else {
      assert s[n + 2..n + 5][0] == s[n + 2];
      assert s[2] == '>' && s[3] == '~' && s[4] == c;
    }
  }

  /** A clean tag followed by delimiter-free text holds no delimiter. */
  lemma TagThenText(t: string, x: string)
    requires CleanTag(t) && NoDelimiters(x)
    ensures NoDelimiters(t + x)
  {
    forall q | IsDelimiter(q)
      ensures !Contains(t + x, q)
    {
      CleanTagAvoids(t, q);
      ContainsConcatPair(t, x, q);
    }
  }

  /** The last character of a clean tag followed by plain text is no `~`. */
  lemma TagThenTextLast(t: string, x: string)
    requires CleanTag(t) && PlainText(x)
    ensures (t + x)[|t + x| - 1] != '~'
  {
    if |x| > 0 {
      assert (t + x)[|t + x| - 1] == x[|x| - 1];
    } else {
      assert t + x == t;
    }
  }

  /** After the opening delimiter has become a clean tag, the closing
      delimiter is the only one left. */
  lemma RewrittenDelims(t: string, x: string, c: char)
    requires CleanTag(t) && c in ":%?!" && PlainText(x)
    ensures forall j :: DelimAt(t + x + ([c] + "~</p>"), j) ==> j == |t| + |x|
  {
    var q := [c] + "~</p>";
    var u := t + x;
    var s := u + q;
    var m := |u|;
    TagThenText(t, x);
    TagThenTextLast(t, x);
    assert s[m] == c && s[m + 1] == '~' && s[m + 2] == '<';
    assert s[m + 3] == '/' && s[m + 4] == 'p' && s[m + 5] == '>';
    forall j | 0 <= j && j + 2 <= |s| && j != m
      ensures !DelimAt(s, j)
    {
      if j + 2 <= m {
        assert s[j..j + 2] == u[j..j + 2];
        ContainsAt(u, u[j..j + 2], j);
      } else {
        DelimAtChars(s, j);
        assert j + 1 == m ==> s[j] == u[m - 1];
      }
    }
  }

  /** Once both delimiters have become clean tags no delimiter is left. */
  lemma FinalNoDelimiters(t: string, x: string)
    requires CleanTag(t) && NoDelimiters(x)
    ensures NoDelimiters(t + x + CloseTag)
  {
    TagsClean();
    TagThenText(t, x);
    forall q | IsDelimiter(q)
      ensures !Contains(t + x + CloseTag, q)
    {
      CleanTagAvoids(CloseTag, q);
      ContainsConcatPair(t + x, CloseTag, q);
    }
  }

  // ---------------------------------------------------------------------
  // The block pass

  /** The block pass finds nothing in an inline alert paragraph. */
  lemma BlockPassIdle(k: nat, x: string)
    requires k < 4 && PlainText(x)
    ensures ApplyRules(InlineAlert(Kinds[k], x), BlockRules) == InlineAlert(Kinds[k], x)
  {
    var c := Kinds[k];
    var s := InlineAlert(c, x);
    assert c in ":%?!" by { assert Kinds == ":%?!"; }
    RulesReplaceable();
    ParagraphDelims(c, x);
    forall i | 0 <= i < |BlockRules|
      ensures !Contains(s, BlockRules[i].0)
    {
      var p := BlockRules[i].0;
      BlockPatternShape(i);
      if Contains(s, p) {
        var j := ContainsIndex(s, p);
        BlockNotInParagraph(c, x, p, j);
      }
    }
    RulesIdle(s, BlockRules);
  }

  /** Every block pattern is `<p>`, a delimiter, `</p>`. */
  lemma BlockPatternShape(i: nat)
    requires i < |BlockRules|
    ensures var p := BlockRules[i].0;
      |p| == 9 && p[..3] == "<p>" && IsDelimiter(p[3..5]) && p[5..] == "</p>"
  {
    RuleShape(i / 2);
    var p := BlockRules[i].0;
    var c := Kinds[i / 2];
    assert c in ":%?!" by { assert Kinds == ":%?!"; }
    if i % 2 == 0 {
      assert p == "<p>~" + [c] + "</p>";
    } else {
      assert p == "<p>" + [c] + "~</p>";
    }
  }

  /** A block pattern would need a paragraph tag in the middle of the
      paragraph, where the text has none. */
  lemma BlockNotInParagraph(c: char, x: string, p: string, j: int)
    requires c in ":%?!" && PlainText(x)
    requires |p| == 9 && p[..3] == "<p>" && IsDelimiter(p[3..5]) && p[5..] == "</p>"
    requires forall j :: DelimAt(InlineAlert(c, x), j) ==> j == 3 || j == |x| + 5
    ensures !OccursAt(InlineAlert(c, x), p, j)
  {
    var s := InlineAlert(c, x);
    PatternDelim(s, p, 3, j);
    OccursPart(s, p, j, 0, 3);
    OccursPart(s, p, j, 5, 9);
    ParagraphEnds(c, x);
  }

  // ---------------------------------------------------------------------
  // The inline pass

  /** The inline pass turns the paragraph into opening tag, text, closing
      tag: the rules of the kinds listed before find nothing, the kind's own
      opening rule rewrites the front, its closing rule the back, and the
      rules after find nothing. */
  lemma InlinePass(k: nat, x: string)
    requires k < 4 && PlainText(x)
    ensures ApplyRules(InlineAlert(Kinds[k], x), InlineRules) ==
      OpenTag(KindName(k)) + x + CloseTag
  {
    var c := Kinds[k];
    var t := OpenTag(KindName(k));
    assert c in ":%?!" by { assert Kinds == ":%?!"; }
    RulesReplaceable();
    RuleShape(k);
    EarlierInlineIdle(k, x);
    TagNameClean(k);
    FinalNoDelimiters(t, x);
    PassesDelimitedPatterns();
    LaterIdle(InlineRules, 2 * k + 2, t + x + CloseTag);
    KindPair(InlineRules, 2 * k, c, x, t);
  }

  /** The rewrite of the paragraph by the two rules of its own kind, wherever
      they sit in a list whose other rules leave it alone. */
  lemma KindPair(rules: seq<Rule>, i: nat, c: char, x: string, t: string)
    requires Replaceable(rules) && i + 2 <= |rules|
    requires rules[i] == ("<p>~" + [c], t) && rules[i + 1] == ([c] + "~</p>", CloseTag)
    requires CleanTag(t) && c in ":%?!" && PlainText(x)
    requires Replaceable(rules[..i]) && ApplyRules(InlineAlert(c, x), rules[..i]) == InlineAlert(c, x)
    requires Replaceable(rules[i + 2..])
    requires ApplyRules(t + x + CloseTag, rules[i + 2..]) == t + x + CloseTag
    ensures ApplyRules(InlineAlert(c, x), rules) == t + x + CloseTag
  {
    FrontStep(c, x, t);
    BackStep(t, x, c);
    PassThroughPair(InlineAlert(c, x), rules, i, t + x + ([c] + "~</p>"), t + x + CloseTag);
  }

  /** The kind's opening rule rewrites the front of the paragraph only. */
  lemma FrontStep(c: char, x: string, t: string)
    requires c in ":%?!" && PlainText(x)
    ensures ReplaceAll(InlineAlert(c, x), "<p>~" + [c], t) == t + x + ([c] + "~</p>")
  {
    var open, close := "<p>~" + [c], [c] + "~</p>";
    OpenerOnlyInFront(c, x);
    assert InlineAlert(c, x) == open + (x + close);
    ReplaceAtFront(open, x + close, t);
    assert t + (x + close) == t + x + close;
  }

  /** The kind's closing rule then rewrites the back only. */
  lemma BackStep(t: string, x: string, c: char)
    requires CleanTag(t) && c in ":%?!" && PlainText(x)
    ensures ReplaceAll(t + x + ([c] + "~</p>"), [c] + "~</p>", CloseTag) == t + x + CloseTag
  {
    CloserOnlyAtEnd(t, x, c);
    ReplaceAtEnd(t + x, [c] + "~</p>", CloseTag);
  }

  /** Rules of which the first `i` leave `s` alone, the next two rewrite it
      into `done`, and the rest leave `done` alone, turn `s` into `done`. */
  lemma PassThroughPair(s: string, rules: seq<Rule>, i: nat, mid: string, done: string)
    requires Replaceable(rules) && i + 2 <= |rules|
    requires Replaceable(rules[..i]) && ApplyRules(s, rules[..i]) == s
    requires ReplaceAll(s, rules[i].0, rules[i].1) == mid
    requires ReplaceAll(mid, rules[i + 1].0, rules[i + 1].1) == done
    requires Replaceable(rules[i + 2..]) && ApplyRules(done, rules[i + 2..]) == done
    ensures ApplyRules(s, rules) == done
  {
    ApplyRulesSplit(s, rules, i);
    var rest := rules[i..];
    assert rest[0] == rules[i] && rest[1] == rules[i + 1];
    assert rest[1..][1..] == rules[i + 2..];
  }

  /** The rules of the kinds before kind `k` find nothing in its paragraph. */
  lemma EarlierInlineIdle(k: nat, x: string)
    requires k < 4 && PlainText(x)
    ensures Replaceable(InlineRules[..2 * k])
    ensures ApplyRules(InlineAlert(Kinds[k], x), InlineRules[..2 * k]) == InlineAlert(Kinds[k], x)
  {
    var c := Kinds[k];
    var s := InlineAlert(c, x);
    var front := InlineRules[..2 * k];
    assert c in ":%?!" by { assert Kinds == ":%?!"; }
    RulesReplaceable();
    ParagraphDelims(c, x);
    forall i | 0 <= i < |front|
      ensures !Contains(s, front[i].0)
    {
      var k' := i / 2;
      RuleShape(k');
      assert front[i] == InlineRules[i];
      var d := Kinds[k'];
      assert d in ":%?!" && d != c by {
        assert Kinds == ":%?!";
        assert k' < k;
      }
      if Contains(s, front[i].0) {
        var j := ContainsIndex(s, front[i].0);
        if i % 2 == 0 {
          OpenerNotAt(c, x, d, j);
        } else {
          CloserNotAt(c, x, d, j);
        }
      }
    }
    RulesIdle(s, front);
  }

  /** An opening inline pattern occurs in the paragraph only at the front,
      and only with the paragraph's own kind. */
  lemma OpenerNotAt(c: char, x: string, d: char, j: int)
    requires c in ":%?!" && d in ":%?!" && PlainText(x)
    requires forall j :: DelimAt(InlineAlert(c, x), j) ==> j == 3 || j == |x| + 5
    ensures OccursAt(InlineAlert(c, x), "<p>~" + [d], j) ==> j == 0 && d == c
  {
    var s := InlineAlert(c, x);
    var p := "<p>~" + [d];
    assert p[3..5] == ['~', d];
    PatternDelim(s, p, 3, j);
    OccursChar(s, p, j, 3);
    OccursChar(s, p, j, 4);
    assert s == "<p>~" + [c] + x + ([c] + "~</p>");
    assert s[4] == c && s[|x| + 5] == c;
  }

  /** A closing inline pattern occurs in the paragraph only at the back, and
      only with the paragraph's own kind. */
  lemma CloserNotAt(c: char, x: string, d: char, j: int)
    requires c in ":%?!" && d in ":%?!" && PlainText(x)
    requires forall j :: DelimAt(InlineAlert(c, x), j) ==> j == 3 || j == |x| + 5
    ensures OccursAt(InlineAlert(c, x), [d] + "~</p>", j) ==> j == |x| + 5 && d == c
  {
    var s := InlineAlert(c, x);
    var p := [d] + "~</p>";
    assert p[0..2] == [d, '~'];
    PatternDelim(s, p, 0, j);
    OccursChar(s, p, j, 0);
    assert s == "<p>~" + [c] + x + ([c] + "~</p>");
    assert s[3] == '~' && s[|x| + 5] == c;
  }

  /** The paragraph's opening delimiter does not occur again after the front. */
  lemma OpenerOnlyInFront(c: char, x: string)
    requires c in ":%?!" && PlainText(x)
    ensures !Contains(x + ([c] + "~</p>"), "<p>~" + [c])
  {
    var open, close := "<p>~" + [c], [c] + "~</p>";
    var s := InlineAlert(c, x);
    assert s == open + (x + close);
    ParagraphDelims(c, x);
    if Contains(x + close, open) {
      var j := ContainsIndex(x + close, open);
      OccursShift(open, x + close, open, j);
      OpenerNotAt(c, x, c, |open| + j);
    }
  }

  /** After the front is rewritten, the closing delimiter occurs only at the
      very end. */
  lemma CloserOnlyAtEnd(t: string, x: string, c: char)
    requires CleanTag(t) && c in ":%?!" && PlainText(x)
    ensures var s := t + x + ([c] + "~</p>"); !Contains(s[..|s| - 1], [c] + "~</p>")
  {
    var close := [c] + "~</p>";
    var s := t + x + close;
    var front := s[..|s| - 1];
    RewrittenDelims(t, x, c);
    assert close[0..2] == [c, '~'];
    if Contains(front, close) {
      var j := ContainsIndex(front, close);
      assert OccursAt(s, close, j) by {
        assert s[j..j + |close|] == front[j..j + |close|];
      }
      PatternDelim(s, close, 0, j);
    }
  }

  /** The rules from index `i` on find nothing in delimiter-free text. */
  lemma LaterIdle(rules: seq<Rule>, i: nat, done: string)
    requires Replaceable(rules) && DelimitedPatterns(rules) && i <= |rules| && NoDelimiters(done)
    ensures Replaceable(rules[i..])
    ensures ApplyRules(done, rules[i..]) == done
  {
    var later := rules[i..];
    assert DelimitedPatterns(later) by {
      forall j | 0 <= j < |later|
        ensures |later[j].0| >= 2 && IsDelimiter(DelimiterIn(later[j].0))
      {
        assert later[j] == rules[i + j];
      }
    }
    assert Replaceable(later) by {
      forall j | 0 <= j < |later|
        ensures |later[j].0| > 0
      {
        assert later[j] == rules[i + j];
      }
    }
    PatternsAbsent(done, later);
    RulesIdle(done, later);
  }

  /** The opening tag of every kind is clean. */
  lemma TagNameClean(k: nat)
    requires k < 4
    ensures CleanTag(OpenTag(KindName(k)))
  {
    TagsClean();
  }

  // ---------------------------------------------------------------------
  // An alert made of delimiter-only paragraphs

  /** Text `y` between a paragraph holding only the opening delimiter of the
      kind with character `c` and a paragraph holding only its closing
      delimiter. */
  function BlockAlert(c: char, y: string): string {
    "<p>~" + [c] + "</p>" + y + ("<p>" + [c] + "~</p>")
  }

  /** `<p>~:</p>` Y `<p>:~</p>` (and likewise for tip, note and warning)
      becomes that kind's opening tag, Y, and the closing tag, for every Y
      that holds no delimiter: the block pass rewrites both paragraphs, and
      the inline and bare passes find nothing left to rewrite. */
  lemma BlockWrapped(k: nat, y: string)
    requires k < 4 && NoDelimiters(y)
    ensures ConvertInfoMacros(BlockAlert(Kinds[k], y)) == OpenTag(KindName(k)) + y + CloseTag
  {
    var t := OpenTag(KindName(k));
    var done := t + y + CloseTag;
    RulesReplaceable();
    TagNameClean(k);
    FinalNoDelimiters(t, y);
    PassesDelimitedPatterns();
    assert ApplyRules(BlockAlert(Kinds[k], y), BlockRules) == done by {
      BlockPass(k, y);
    }
    assert ApplyRules(done, InlineRules) == done by {
      PatternsAbsent(done, InlineRules);
      RulesIdle(done, InlineRules);
    }
    PatternsAbsent(done, BareRules);
    RulesIdle(done, BareRules);
  }

  /** The block pass alone turns such an alert into opening tag, Y, closing
      tag: the rules of the kinds listed before find nothing, the kind's own
      two rules rewrite the two paragraphs, and the rules after find
      nothing. */
  lemma BlockPass(k: nat, y: string)
    requires k < 4 && NoDelimiters(y)
    ensures ApplyRules(BlockAlert(Kinds[k], y), BlockRules) == OpenTag(KindName(k)) + y + CloseTag
  {
    var c := Kinds[k];
    var t := OpenTag(KindName(k));
    var done := t + y + CloseTag;
    assert c in ":%?!" by { assert Kinds == ":%?!"; }
    RulesReplaceable();
    RuleShape(k);
    TagNameClean(k);
    FinalNoDelimiters(t, y);
    PassesDelimitedPatterns();
    EarlierBlockIdle(k, y);
    LaterIdle(BlockRules, 2 * k + 2, done);
    BlockFrontStep(c, y, t);
    BlockBackStep(t, y, c);
    PassThroughPair(BlockAlert(c, y), BlockRules, 2 * k, t + y + ("<p>" + [c] + "~</p>"), done);
  }

  /** In a block alert the only delimiters are the one in the opening
      paragraph and the one in the closing paragraph. */
  lemma BlockDelims(c: char, y: string)
    requires c in ":%?!" && NoDelimiters(y)
    ensures forall j :: DelimAt(BlockAlert(c, y), j) ==> j == 3 || j == |y| + 12
    ensures var s := BlockAlert(c, y);
      |s| == |y| + 18 && s[3] == '~' && s[4] == c && s[|y| + 12] == c && s[|y| + 13] == '~'
  {
    var s := BlockAlert(c, y);
    var n := |y|;
    var a, b := "<p>~" + [c] + "</p>", "<p>" + [c] + "~</p>";
    assert s == a + y + b;
    assert OccursAt(s, y, 9) by {
      assert s[9..9 + n] == y;
    }
    forall j | 0 <= j && j + 2 <= |s| && j != 3 && j != n + 12
      ensures !DelimAt(s, j)
    {
      DelimAtChars(s, j);
      if j < 9 {
        assert s[j] == a[j];
        assert j < 8 ==> s[j + 1] == a[j + 1];
      } else if j + 2 <= n + 9 {
        DelimInside(s, y, 9, j);
      } else {
        assert s[j + 1] == b[j + 1 - n - 9];
        assert j >= n + 9 ==> s[j] == b[j - n - 9];
      }
    }
    assert s[3] == a[3] && s[4] == a[4] && s[n + 12] == b[3] && s[n + 13] == b[4];
  }

  /** A pattern whose delimiter sits at offset `o` can occur in text whose
      only delimiters are an opening one of kind `c` at `a` and a closing
      one of that kind at `b` only over one of these two, carrying it. */
  lemma PatternPlaced(s: string, p: string, o: nat, j: int, a: int, b: int, c: char)
    requires o + 2 <= |p| && IsDelimiter(p[o..o + 2])
    requires forall i :: DelimAt(s, i) ==> i == a || i == b
    requires 0 <= a && a + 2 <= |s| && s[a] == '~' && s[a + 1] == c
    requires 0 <= b && b + 2 <= |s| && s[b] == c && s[b + 1] == '~'
    ensures OccursAt(s, p, j) ==>
      (j + o == a && p[o] == '~' && p[o + 1] == c) || (j + o == b && p[o] == c && p[o + 1] == '~')
  {
    PatternDelim(s, p, o, j);
    OccursChar(s, p, j, o);
    OccursChar(s, p, j, o + 1);
  }

  /** The block rules of the kinds before kind `k` find nothing in its alert. */
  lemma EarlierBlockIdle(k: nat, y: string)
    requires k < 4 && NoDelimiters(y)
    ensures Replaceable(BlockRules[..2 * k])
    ensures ApplyRules(BlockAlert(Kinds[k], y), BlockRules[..2 * k]) == BlockAlert(Kinds[k], y)
  {
    var c := Kinds[k];
    var s := BlockAlert(c, y);
    var front := BlockRules[..2 * k];
    assert c in ":%?!" by { assert Kinds == ":%?!"; }
    RulesReplaceable();
    BlockDelims(c, y);
    forall i | 0 <= i < |front|
      ensures !Contains(s, front[i].0)
    {
      var k' := i / 2;
      RuleShape(k');
      assert front[i] == BlockRules[i];
      var d := Kinds[k'];
      assert d in ":%?!" && d != c by {
        assert Kinds == ":%?!";
        assert k' < k;
      }
      var p := front[i].0;
      assert p[3..5] == (if i % 2 == 0 then ['~', d] else [d, '~']);
      if Contains(s, p) {
        var j := ContainsIndex(s, p);
        PatternPlaced(s, p, 3, j, 3, |y| + 12, c);
      }
    }
    RulesIdle(s, front);
  }

  /** The kind's opening block rule rewrites the opening paragraph only. */
  lemma BlockFrontStep(c: char, y: string, t: string)
    requires c in ":%?!" && NoDelimiters(y)
    ensures ReplaceAll(BlockAlert(c, y), "<p>~" + [c] + "</p>", t) == t + y + ("<p>" + [c] + "~</p>")
  {
    var open, close := "<p>~" + [c] + "</p>", "<p>" + [c] + "~</p>";
    BlockOpenerOnlyInFront(c, y);
    assert BlockAlert(c, y) == open + (y + close);
    ReplaceAtFront(open, y + close, t);
    assert t + (y + close) == t + y + close;
  }

  /** The opening paragraph does not occur again after the front. */
  lemma BlockOpenerOnlyInFront(c: char, y: string)
    requires c in ":%?!" && NoDelimiters(y)
    ensures !Contains(y + ("<p>" + [c] + "~</p>"), "<p>~" + [c] + "</p>")
  {
    var open, close := "<p>~" + [c] + "</p>", "<p>" + [c] + "~</p>";
    var s := BlockAlert(c, y);
    assert s == open + (y + close);
    BlockDelims(c, y);
    assert open[3..5] == ['~', c];
    if Contains(y + close, open) {
      var j := ContainsIndex(y + close, open);
      OccursShift(open, y + close, open, j);
      PatternPlaced(s, open, 3, |open| + j, 3, |y| + 12, c);
    }
  }

  /** The kind's closing block rule then rewrites the closing paragraph only. */
  lemma BlockBackStep(t: string, y: string, c: char)
    requires CleanTag(t) && c in ":%?!" && NoDelimiters(y)
    ensures ReplaceAll(t + y + ("<p>" + [c] + "~</p>"), "<p>" + [c] + "~</p>", CloseTag) == t + y + CloseTag
  {
    BlockCloserOnlyAtEnd(t, y, c);
    ReplaceAtEnd(t + y, "<p>" + [c] + "~</p>", CloseTag);
  }

  /** After the opening paragraph is rewritten, the closing one occurs only
      at the very end. */
  lemma BlockCloserOnlyAtEnd(t: string, y: string, c: char)
    requires CleanTag(t) && c in ":%?!" && NoDelimiters(y)
    ensures var s := t + y + ("<p>" + [c] + "~</p>"); !Contains(s[..|s| - 1], "<p>" + [c] + "~</p>")
  {
    var close := "<p>" + [c] + "~</p>";
    var s := t + y + close;
    var front := s[..|s| - 1];
    BlockRewrittenDelims(t, y, c);
    assert close[3..5] == [c, '~'];
    if Contains(front, close) {
      var j := ContainsIndex(front, close);
      assert OccursAt(s, close, j) by {
        assert s[j..j + |close|] == front[j..j + |close|];
      }
      PatternDelim(s, close, 3, j);
    }
  }

  /** After the opening paragraph has become a clean tag, the delimiter of
      the closing paragraph is the only one left. */
  lemma BlockRewrittenDelims(t: string, y: string, c: char)
    requires CleanTag(t) && c in ":%?!" && NoDelimiters(y)
    ensures forall j :: DelimAt(t + y + ("<p>" + [c] + "~</p>"), j) ==> j == |t| + |y| + 3
  {
    var close := "<p>" + [c] + "~</p>";
    var u := t + y;
    var s := u + close;
    var m := |u|;
    TagThenText(t, y);
    assert s[m] == '<' && s[m + 1] == 'p' && s[m + 2] == '>' && s[m + 3] == c && s[m + 4] == '~';
    assert s[m + 5] == '<' && s[m + 6] == '/' && s[m + 7] == 'p' && s[m + 8] == '>';
    forall j | 0 <= j && j + 2 <= |s| && j != m + 3
      ensures !DelimAt(s, j)
    {
      if j + 2 <= m {
        assert s[j..j + 2] == u[j..j + 2];
        ContainsAt(u, u[j..j + 2], j);
      } else {
        DelimAtChars(s, j);
      }
    }
  }

  // ---------------------------------------------------------------------
  // Strings

  /** A slice of a slice is a slice of the whole. */
  lemma SliceOfSlice(s: string, i: int, j: int, a: int, b: int)
    requires 0 <= i <= j <= |s| && 0 <= a <= b <= j - i
    ensures s[i..j][a..b] == s[i + a..i + b]
  {
    forall k | 0 <= k < b - a
      ensures s[i..j][a..b][k] == s[i + a..i + b][k]
    {
    }
  }

  /** Where an occurring pattern sits. */
  lemma {:induction false} ContainsIndex(s: string, p: string) returns (j: nat)
    requires Contains(s, p)
    ensures OccursAt(s, p, j)
    decreases |s|
  {
    if StartsWith(s, p) {
      j := 0;
      assert s[..|p|] == s[0..|p|];
    } else {
      var j' := ContainsIndex(s[1..], p);
      j := j' + 1;
      assert s[j..j + |p|] == s[1..][j'..j' + |p|];
    }
  }

  /** Where the pattern does not start, the first character is kept. */
  lemma ReplaceSkip(s: string, pat: string, rep: string)
    requires |pat| > 0 && |pat| <= |s| && s[..|pat|] != pat
    ensures ReplaceAll(s, pat, rep) == [s[0]] + ReplaceAll(s[1..], pat, rep)
  {
  }

  /** Text holding the pattern only as its suffix does not start with it,
      and keeps that property when its first character is dropped. */
  lemma EndFreeTail(s: string, pat: string)
    requires |pat| > 0 && |s| > |pat| && !Contains(s[..|s| - 1], pat)
    ensures s[..|pat|] != pat && !Contains(s[1..][..|s| - 2], pat)
  {
    var front := s[..|s| - 1];
    assert front[..|pat|] == s[..|pat|];
    assert !Contains(front[1..], pat);
    assert s[1..][..|s| - 2] == front[1..] by {
      SliceOfSlice(s, 1, |s|, 0, |s| - 2);
      SliceOfSlice(s, 0, |s| - 1, 1, |s| - 1);
      assert s[1..] == s[1..|s|] && front == s[0..|s| - 1];
    }
  }

  /** `ReplaceAtEnd` by induction over the text. */
  lemma {:induction false} ReplaceLast(s: string, pat: string, rep: string)
    requires |pat| > 0 && EndsWith(s, pat) && !Contains(s[..|s| - 1], pat)
    ensures ReplaceAll(s, pat, rep) == s[..|s| - |pat|] + rep
    decreases |s|
  {
    if |s| == |pat| {
      ReplaceLastBase(s, pat, rep);
    } else {
      EndFreeTail(s, pat);
      TailEndsWith(s, pat);
      ReplaceLast(s[1..], pat, rep);
      ReplaceLastStep(s, pat, rep);
    }
  }

  /** A text longer than its suffix still ends with it after its first
      character is dropped. */
  lemma TailEndsWith(s: string, pat: string)
    requires |s| > |pat| && EndsWith(s, pat)
    ensures EndsWith(s[1..], pat)
  {
    assert s[1..][|s| - 1 - |pat|..] == s[|s| - |pat|..];
  }

  /** A text that is exactly the pattern becomes the replacement. */
  lemma ReplaceLastBase(s: string, pat: string, rep: string)
    requires |pat| > 0 && EndsWith(s, pat) && |s| == |pat|
    ensures ReplaceAll(s, pat, rep) == s[..|s| - |pat|] + rep
  {
    assert s == pat;
    ReplaceWhole(pat, rep);
  }

  /** One step of `ReplaceLast`: the first character is kept. */
  lemma ReplaceLastStep(s: string, pat: string, rep: string)
    requires |pat| > 0 && |s| > |pat| && s[..|pat|] != pat
    requires ReplaceAll(s[1..], pat, rep) == s[1..][..|s| - 1 - |pat|] + rep
    ensures ReplaceAll(s, pat, rep) == s[..|s| - |pat|] + rep
  {
    ReplaceSkip(s, pat, rep);
    assert [s[0]] + s[1..][..|s| - 1 - |pat|] == s[..|s| - |pat|];
  }

  /** A pattern occurring only at the very end is replaced there and nowhere
      else. */
  lemma ReplaceAtEnd(a: string, pat: string, rep: string)
    requires |pat| > 0
    requires !Contains((a + pat)[..|a + pat| - 1], pat)
    ensures ReplaceAll(a + pat, pat, rep) == a + rep
  {
    var s := a + pat;
    assert EndsWith(s, pat) by { assert s[|s| - |pat|..] == pat; }
    ReplaceLast(s, pat, rep);
    assert s[..|s| - |pat|] == a;
  }
}
