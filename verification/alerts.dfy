/** `convert_info_macros`: twenty-four chained `str.replace` calls that turn
    the custom alert delimiters in rendered HTML into Confluence info, tip,
    note and warning macros, in three passes (block, inline, bare). */
module Alerts {
  import opened Strings

  /** Text before and after the macro name in an opening tag. */
  const TagHead: string := "<p><ac:structured-macro ac:name=\""
  const TagTail: string := "\"><ac:rich-text-body><p>"

  /** The opening tags of the four alert kinds; the source writes the info
      tag out and derives the other three from it (`OpenTagsByRenaming`). */
  const InfoTag: string := OpenTag("info")
  const TipTag: string := OpenTag("tip")
  const NoteTag: string := OpenTag("note")
  const WarningTag: string := OpenTag("warning")
  const CloseTag: string := "</p></ac:rich-text-body>" + "</ac:structured-macro></p>"

  /** The opening tag of the alert macro called `name`. */
  function OpenTag(name: string): string {
    TagHead + name + TagTail
  }

  /** One `html.replace(pattern, replacement)` step. */
  type Rule = (string, string)

  /** Paragraphs holding nothing but a delimiter. */
  const BlockRules: seq<Rule> := [
    ("<p>~:</p>", InfoTag), ("<p>:~</p>", CloseTag),
    ("<p>~%</p>", TipTag), ("<p>%~</p>", CloseTag),
    ("<p>~?</p>", NoteTag), ("<p>?~</p>", CloseTag),
    ("<p>~!</p>", WarningTag), ("<p>!~</p>", CloseTag)
  ]

  /** A delimiter opening or closing a paragraph. */
  const InlineRules: seq<Rule> := [
    ("<p>~:", InfoTag), (":~</p>", CloseTag),
    ("<p>~%", TipTag), ("%~</p>", CloseTag),
    ("<p>~?", NoteTag), ("?~</p>", CloseTag),
    ("<p>~!", WarningTag), ("!~</p>", CloseTag)
  ]

  /** Delimiters anywhere else, such as inside table cells. */
  const BareRules: seq<Rule> := [
    ("~:", InfoTag), (":~", CloseTag),
    ("~%", TipTag), ("%~", CloseTag),
    ("~?", NoteTag), ("?~", CloseTag),
    ("~!", WarningTag), ("!~", CloseTag)
  ]

  /** Every pattern of a rule list is non-empty, as `ReplaceAll` needs. */
  predicate Replaceable(rules: seq<Rule>) {
    forall i :: 0 <= i < |rules| ==> |rules[i].0| > 0
  }

  /** The replacements of `rules`, applied one after the other in list order. */
  function ApplyRules(s: string, rules: seq<Rule>): string
    requires Replaceable(rules)
    decreases |rules|
  {
    if |rules| == 0 then s
    else ApplyRules(ReplaceAll(s, rules[0].0, rules[0].1), rules[1..])
  }

  /** The whole rewrite: block pass, then inline pass, then bare pass. */
  function ConvertInfoMacros(html: string): string {
    RulesReplaceable();
    ApplyRules(ApplyRules(ApplyRules(html, BlockRules), InlineRules), BareRules)
  }

  // ---------------------------------------------------------------------
  // The tags

  /** The info tag is the literal the source writes, and replacing `info`
      in it gives the tag of each other kind. */
  lemma OpenTagsByRenaming()
    ensures TipTag == ReplaceAll(InfoTag, "info", "tip")
    ensures NoteTag == ReplaceAll(InfoTag, "info", "note")
    ensures WarningTag == ReplaceAll(InfoTag, "info", "warning")
  {
    RenameInfoTag(InfoTag, "tip");
    RenameInfoTag(InfoTag, "note");
    RenameInfoTag(InfoTag, "warning");
  }

  lemma RenameInfoTag(info: string, name: string)
    requires info == InfoTag
    ensures ReplaceAll(info, "info", name) == OpenTag(name)
  {
    var head, tail := TagHead, TagTail;
    assert ReplaceAll(head + "info" + tail, "info", name) == head + name + tail by {
      NoFInTagParts(head, tail);
      NoFInTag(head, tail);
      HeadTailFree(head);
      ReplaceMiddle(head, tail, "info", name);
    }
  }

  lemma NoFInTagParts(head: string, tail: string)
    requires head == TagHead && tail == TagTail
    ensures 'f' !in head && 'f' !in tail
  {
    assert 'f' !in head by {}
  }

  /** Replacing a pattern that occurs once, between two parts neither of which
      holds it and the first of which cannot run into it, swaps just that one. */
  lemma ReplaceMiddle(h: string, t: string, pat: string, rep: string)
    requires |pat| > 0 && TailFree(h, pat[0], |pat|)
    requires !Contains(h, pat) && !Contains(t, pat)
    ensures ReplaceAll(h + pat + t, pat, rep) == h + rep + t
  {
    var pt := pat + t;
    assert ReplaceAll(h + pt, pat, rep) == h + (rep + t) by {
      ReplaceConcat(h, pt, pat, rep);
      ReplaceAtFront(pat, t, rep);
    }
    assert h + pat + t == h + pt;
    assert h + (rep + t) == h + rep + t;
  }

  /** An occurrence at the front is replaced and the rest, free of the
      pattern, is kept. */
  lemma ReplaceAtFront(pat: string, t: string, rep: string)
    requires |pat| > 0 && !Contains(t, pat)
    ensures ReplaceAll(pat + t, pat, rep) == rep + t
  {
    var pt := pat + t;
    assert pt[..|pat|] == pat && pt[|pat|..] == t;
  }

  /** Parts without an `f` cannot hold `info`. */
  lemma NoFInTag(head: string, tail: string)
    requires 'f' !in head && 'f' !in tail
    ensures !Contains(head, "info") && !Contains(tail, "info")
  {
    assert 'f' in "info" by { assert "info"[2] == 'f'; }
    if Contains(head, "info") {
      ContainsChar(head, "info", 'f');
    }
    if Contains(tail, "info") {
      ContainsChar(tail, "info", 'f');
    }
  }

  lemma HeadTailFree(head: string)
    requires head == TagHead
    ensures TailFree(head, 'i', 4)
  {
    var n := |head|;
    assert head[n - 3..] == "e=\"";
    forall k | 0 <= k < n && n < k + 4
      ensures head[k] != 'i'
    {
      assert head[k] == head[n - 3..][k - (n - 3)];
    }
  }

  /** A replacement that no pass can extend into a delimiter: it has no `~`,
      starts with `<` and ends with `>`. */
  predicate CleanTag(t: string) {
    |t| > 0 && '~' !in t && t[0] == '<' && t[|t| - 1] == '>'
  }

  lemma TagsClean()
    ensures CleanTag(InfoTag) && CleanTag(TipTag) && CleanTag(NoteTag)
    ensures CleanTag(WarningTag) && CleanTag(CloseTag)
  {
    OpenTagClean("info");
    OpenTagClean("tip");
    OpenTagClean("note");
    OpenTagClean("warning");
    CloseTagClean();
  }

  /** An opening tag is clean whatever macro name it carries, as long as the
      name has no `~`. */
  lemma OpenTagClean(name: string)
    requires '~' !in name
    ensures CleanTag(OpenTag(name))
  {
    var h, t := TagHead, TagTail;
    assert '~' !in h && h[0] == '<' by {}
    assert '~' !in t && t[|t| - 1] == '>' by {}
    assert OpenTag(name) == h + name + t;
  }

  lemma CloseTagClean()
    ensures CleanTag(CloseTag)
  {
  }

  // ---------------------------------------------------------------------
  // Delimiters

  /** The eight two-character delimiters: `~` before or after one of the
      four kind characters `:` (info), `%` (tip), `?` (note), `!` (warning). */
  predicate IsDelimiter(q: string) {
    |q| == 2 &&
    ((q[0] == '~' && q[1] in ":%?!") || (q[1] == '~' && q[0] in ":%?!"))
  }

  /** The position of a kind character in the order info, tip, note, warning. */
  function KindIndex(c: char): (k: nat)
    requires c in ":%?!"
    ensures k < 4 && ":%?!"[k] == c
  {
    if c == ':' then 0 else if c == '%' then 1 else if c == '?' then 2 else 3
  }

  /** No delimiter occurs in `s`. */
  ghost predicate NoDelimiters(s: string) {
    forall q :: IsDelimiter(q) ==> !Contains(s, q)
  }

  lemma RulesReplaceable()
    ensures Replaceable(BlockRules) && Replaceable(InlineRules) && Replaceable(BareRules)
  {
  }

  /** The bare pass lists each delimiter once, each with a clean replacement. */
  lemma BareRulesShape()
    ensures forall i :: 0 <= i < |BareRules| ==>
      IsDelimiter(BareRules[i].0) && CleanTag(BareRules[i].1)
    ensures forall q :: IsDelimiter(q) ==> exists i :: 0 <= i < |BareRules| && BareRules[i].0 == q
  {
    TagsClean();
    forall q | IsDelimiter(q)
      ensures exists i :: 0 <= i < |BareRules| && BareRules[i].0 == q
    {
      assert q == [q[0], q[1]];
      var i := if q[0] == '~' then 2 * KindIndex(q[1]) else 2 * KindIndex(q[0]) + 1;
      assert BareRules[i].0 == q;
    }
  }

  /** Replacing with a clean tag never creates a delimiter that was absent. */
  lemma {:induction false} RulesKeepOut(s: string, rules: seq<Rule>, q: string)
    requires Replaceable(rules)
    requires forall i :: 0 <= i < |rules| ==> CleanTag(rules[i].1)
    requires IsDelimiter(q) && !Contains(s, q)
    ensures !Contains(ApplyRules(s, rules), q)
    decreases |rules|
  {
    if |rules| > 0 {
      CleanTagAvoids(rules[0].1, q);
      ReplaceKeepsOut(s, rules[0].0, rules[0].1, q);
      RulesKeepOut(ReplaceAll(s, rules[0].0, rules[0].1), rules[1..], q);
    }
  }

  lemma CleanTagAvoids(t: string, q: string)
    requires CleanTag(t) && IsDelimiter(q)
    ensures !Contains(t, q) && t[0] != q[1] && t[|t| - 1] != q[0]
  {
    assert '~' in q by {
      if q[0] == '~' { assert q[0] in q; } else { assert q[1] in q; }
    }
    if Contains(t, q) {
      ContainsChar(t, q, '~');
    }
  }

  /** Rules whose patterns are delimiters and whose replacements are clean
      leave none of their patterns behind. */
  lemma {:induction false} RulesClear(s: string, rules: seq<Rule>)
    requires Replaceable(rules)
    requires forall i :: 0 <= i < |rules| ==> IsDelimiter(rules[i].0) && CleanTag(rules[i].1)
    ensures forall i :: 0 <= i < |rules| ==> !Contains(ApplyRules(s, rules), rules[i].0)
    decreases |rules|
  {
    if |rules| > 0 {
      var (p, t) := rules[0];
      var s' := ReplaceAll(s, p, t);
      CleanTagAvoids(t, p);
      ReplaceKeepsOut(s, p, t, p);
      RulesKeepOut(s', rules[1..], p);
      RulesClear(s', rules[1..]);
      forall i | 1 <= i < |rules|
        ensures !Contains(ApplyRules(s, rules), rules[i].0)
      {
        assert rules[i] == rules[1..][i - 1];
      }
    }
  }

  /** Whatever the input, the output holds none of the eight delimiters. */
  lemma ConvertLeavesNoDelimiters(html: string)
    ensures NoDelimiters(ConvertInfoMacros(html))
  {
    RulesReplaceable();
    var mid := ApplyRules(ApplyRules(html, BlockRules), InlineRules);
    BareRulesShape();
    RulesClear(mid, BareRules);
  }

  // ---------------------------------------------------------------------
  // Inputs the rewrite leaves alone

  /** Rules none of whose patterns occur leave the text unchanged. */
  lemma {:induction false} RulesIdle(s: string, rules: seq<Rule>)
    requires Replaceable(rules)
    requires forall i :: 0 <= i < |rules| ==> !Contains(s, rules[i].0)
    ensures ApplyRules(s, rules) == s
    decreases |rules|
  {
    if |rules| > 0 {
      forall i | 0 <= i < |rules| - 1
        ensures !Contains(s, rules[1..][i].0)
      {
        assert rules[1..][i] == rules[i + 1];
      }
      RulesIdle(s, rules[1..]);
    }
  }

  /** The delimiter a pattern carries: after the `<p>` that starts a
      paragraph pattern, else at the front. */
  function DelimiterIn(p: string): (q: string)
    requires |p| >= 2
    ensures Contains(p, q)
  {
    if |p| >= 5 && p[0] == '<' then
      ContainsAt(p, p[3..5], 3);
      p[3..5]
    else
      ContainsAt(p, p[..2], 0);
      p[..2]
  }

  /** Every pattern of `rules` carries a delimiter. */
  predicate DelimitedPatterns(rules: seq<Rule>) {
    forall i :: 0 <= i < |rules| ==> |rules[i].0| >= 2 && IsDelimiter(DelimiterIn(rules[i].0))
  }

  /** Each of the twenty-four patterns carries a delimiter. */
  lemma PassesDelimitedPatterns()
    ensures DelimitedPatterns(BlockRules)
    ensures DelimitedPatterns(InlineRules)
    ensures DelimitedPatterns(BareRules)
  {
    BlockDelimited();
    InlineDelimited();
    BareDelimited();
  }

  lemma BlockDelimited()
    ensures DelimitedPatterns(BlockRules)
  {
    forall i | 0 <= i < |BlockRules|
      ensures |BlockRules[i].0| >= 2 && IsDelimiter(DelimiterIn(BlockRules[i].0))
    {
      var p := BlockRules[i].0;
      assert |p| == 9 && p[0] == '<';
      assert DelimiterIn(p) == [p[3], p[4]];
    }
  }

  lemma InlineDelimited()
    ensures DelimitedPatterns(InlineRules)
  {
  }

  lemma BareDelimited()
    ensures DelimitedPatterns(BareRules)
  {
  }

  /** Text without delimiters is left exactly as it is. */
  lemma NoDelimitersUnchanged(s: string)
    requires NoDelimiters(s)
    ensures ConvertInfoMacros(s) == s
  {
    RulesReplaceable();
    PassesDelimitedPatterns();
    PatternsAbsent(s, BlockRules);
    RulesIdle(s, BlockRules);
    PatternsAbsent(s, InlineRules);
    RulesIdle(s, InlineRules);
    PatternsAbsent(s, BareRules);
    RulesIdle(s, BareRules);
  }

  lemma PatternsAbsent(s: string, rules: seq<Rule>)
    requires NoDelimiters(s) && DelimitedPatterns(rules)
    ensures forall i :: 0 <= i < |rules| ==> !Contains(s, rules[i].0)
  {
    forall i | 0 <= i < |rules|
      ensures !Contains(s, rules[i].0)
    {
      var p := rules[i].0;
      if Contains(s, p) {
        ContainsTrans(s, p, DelimiterIn(p));
      }
    }
  }

  /** Every pattern has a `~` and no replacement does, so text without `~`
      passes through unchanged. */
  lemma NoTildeUnchanged(html: string)
    requires '~' !in html
    ensures ConvertInfoMacros(html) == html
  {
    forall q | IsDelimiter(q)
      ensures !Contains(html, q)
    {
      assert '~' in q by {
        if q[0] == '~' { assert q[0] in q; } else { assert q[1] in q; }
      }
      if Contains(html, q) {
        ContainsChar(html, q, '~');
      }
    }
    NoDelimitersUnchanged(html);
  }

  /** Rewriting twice is rewriting once. */
  lemma ConvertIdempotent(html: string)
    ensures ConvertInfoMacros(ConvertInfoMacros(html)) == ConvertInfoMacros(html)
  {
    ConvertLeavesNoDelimiters(html);
    NoDelimitersUnchanged(ConvertInfoMacros(html));
  }

  // ---------------------------------------------------------------------
  // Pass precedence

  /** The kind characters in the order the rules list them. */
  const Kinds: string := ":%?!"

  /** The rules of every pass come in pairs per kind, in the order info, tip,
      note, warning: the opening delimiter maps to that kind's opening tag
      and the closing delimiter to the one closing tag all kinds share. */
  lemma RuleShape(k: nat)
    requires k < 4
    ensures BlockRules[2 * k] == ("<p>~" + [Kinds[k]] + "</p>", OpenTag(KindName(k)))
    ensures BlockRules[2 * k + 1] == ("<p>" + [Kinds[k]] + "~</p>", CloseTag)
    ensures InlineRules[2 * k] == ("<p>~" + [Kinds[k]], OpenTag(KindName(k)))
    ensures InlineRules[2 * k + 1] == ([Kinds[k]] + "~</p>", CloseTag)
    ensures BareRules[2 * k] == ("~" + [Kinds[k]], OpenTag(KindName(k)))
    ensures BareRules[2 * k + 1] == ([Kinds[k]] + "~", CloseTag)
  {
    var c := Kinds[k];
    assert c == ":%?!"[k];
    var name := KindName(k);
    assert name == ["info", "tip", "note", "warning"][k];
    if k == 0 {
      assert c == ':' && name == "info";
      assert "<p>~:</p>" == "<p>~" + ":" + "</p>";
      assert "<p>:~</p>" == "<p>" + ":" + "~</p>";
      assert ":~</p>" == ":" + "~</p>";
      assert "<p>~:" == "<p>~" + ":";
      assert "~:" == "~" + ":";
      assert ":~" == ":" + "~";
    } else if k == 1 {
      assert c == '%' && name == "tip";
      assert "<p>~%</p>" == "<p>~" + "%" + "</p>";
      assert "<p>%~</p>" == "<p>" + "%" + "~</p>";
      assert "%~</p>" == "%" + "~</p>";
      assert "<p>~%" == "<p>~" + "%";
      assert "~%" == "~" + "%";
      assert "%~" == "%" + "~";
    } else if k == 2 {
      assert c == '?' && name == "note";
      assert "<p>~?</p>" == "<p>~" + "?" + "</p>";
      assert "<p>?~</p>" == "<p>" + "?" + "~</p>";
      assert "?~</p>" == "?" + "~</p>";
      assert "<p>~?" == "<p>~" + "?";
      assert "~?" == "~" + "?";
      assert "?~" == "?" + "~";
    } else {
      assert c == '!' && name == "warning";
      assert "<p>~!</p>" == "<p>~" + "!" + "</p>";
      assert "<p>!~</p>" == "<p>" + "!" + "~</p>";
      assert "!~</p>" == "!" + "~</p>";
      assert "<p>~!" == "<p>~" + "!";
      assert "~!" == "~" + "!";
      assert "!~" == "!" + "~";
    }
  }

  /** The macro name of each kind. */
  function KindName(k: nat): string
    requires k < 4
  {
    ["info", "tip", "note", "warning"][k]
  }

  /** Applying a list of rules is applying its first part, then the rest. */
  lemma {:induction false} ApplyRulesSplit(s: string, rules: seq<Rule>, i: nat)
    requires Replaceable(rules) && i <= |rules|
    ensures Replaceable(rules[..i]) && Replaceable(rules[i..])
    ensures ApplyRules(s, rules) == ApplyRules(ApplyRules(s, rules[..i]), rules[i..])
    decreases i
  {
    if i > 0 {
      var s' := ReplaceAll(s, rules[0].0, rules[0].1);
      ApplyRulesSplit(s', rules[1..], i - 1);
      assert rules[1..][..i - 1] == rules[..i][1..];
      assert rules[1..][i - 1..] == rules[i..];
    } else {
      assert rules[..0] == [];
      assert rules[0..] == rules;
    }
  }

  /** Every one of the twenty-four patterns holds a `~`. */
  predicate TildePatterns(rules: seq<Rule>) {
    forall i :: 0 <= i < |rules| ==> '~' in rules[i].0
  }

  lemma PassesTildePatterns()
    ensures TildePatterns(BlockRules) && TildePatterns(InlineRules) && TildePatterns(BareRules)
  {
  }

  /** Text without `~` is left alone by rules whose patterns all hold one. */
  lemma TildeFreeIdle(s: string, rules: seq<Rule>)
    requires Replaceable(rules) && TildePatterns(rules) && '~' !in s
    ensures ApplyRules(s, rules) == s
  {
    forall i | 0 <= i < |rules|
      ensures !Contains(s, rules[i].0)
    {
      if Contains(s, rules[i].0) {
        ContainsChar(s, rules[i].0, '~');
      }
    }
    RulesIdle(s, rules);
  }

  /** Two strings of one length contain each other only when equal. */
  lemma ContainsSameLength(s: string, p: string)
    requires |s| == |p| && Contains(s, p)
    ensures s == p
  {
    if !StartsWith(s, p) {
      ContainsLength(s[1..], p);
    }
  }

  /** A pattern that no earlier rule of its pass can match is replaced whole
      by its own rule, and a replacement without `~` is left alone by every
      later rule whose pattern holds one. */
  lemma PassPrecedence(p: string, t: string, block: seq<Rule>, inline: seq<Rule>,
                       bare: seq<Rule>, i: nat)
    requires Replaceable(block) && Replaceable(inline) && Replaceable(bare)
    requires TildePatterns(block) && TildePatterns(inline) && TildePatterns(bare)
    requires i < |block| && block[i] == (p, t) && '~' !in t
    requires forall j :: 0 <= j < i ==> |block[j].0| == |p| && block[j].0 != p
    ensures ApplyRules(ApplyRules(ApplyRules(p, block), inline), bare) == t
  {
    forall j | 0 <= j < i
      ensures !Contains(p, block[..i][j].0)
    {
      if Contains(p, block[j].0) {
        ContainsSameLength(p, block[j].0);
      }
    }
    RulesIdle(p, block[..i]);
    ApplyRulesSplit(p, block, i);
    var rest := block[i..];
    assert rest[0] == (p, t);
    ReplaceWhole(p, t);
    assert ApplyRules(p, rest) == ApplyRules(t, rest[1..]);
    TildeFreeIdle(t, rest[1..]);
    TildeFreeIdle(t, inline);
    TildeFreeIdle(t, bare);
  }

  /** The position in the block pass of a nine-character paragraph pattern,
      read off its delimiter. */
  function BlockIndex(p: string): int
    requires |p| >= 5
  {
    var opening := p[3] == '~';
    var c := if opening then p[4] else p[3];
    var k := if c == ':' then 0 else if c == '%' then 1 else if c == '?' then 2 else 3;
    if opening then 2 * k else 2 * k + 1
  }

  lemma BlockIndexed()
    ensures forall i :: 0 <= i < |BlockRules| ==>
      |BlockRules[i].0| == 9 && BlockIndex(BlockRules[i].0) == i
  {
  }

  /** The block patterns all have nine characters and differ pairwise. */
  lemma BlockPatternsDistinct()
    ensures forall i, j :: 0 <= j < i < |BlockRules| ==>
      |BlockRules[j].0| == |BlockRules[i].0| && BlockRules[j].0 != BlockRules[i].0
  {
    BlockIndexed();
  }

  /** Every replacement of the block pass is free of `~`. */
  lemma BlockTagsClean()
    ensures forall i :: 0 <= i < |BlockRules| ==> '~' !in BlockRules[i].1
  {
    TagsClean();
  }

  /** A paragraph holding nothing but a delimiter becomes exactly the tag the
      block pass gives it: the inline and bare passes never see it. */
  lemma BlockParagraph(i: nat)
    requires i < |BlockRules|
    ensures ConvertInfoMacros(BlockRules[i].0) == BlockRules[i].1
  {
    RulesReplaceable();
    PassesTildePatterns();
    BlockTagsClean();
    BlockPatternsDistinct();
    PassPrecedence(BlockRules[i].0, BlockRules[i].1, BlockRules, InlineRules, BareRules, i);
  }
}
