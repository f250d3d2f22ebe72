/** `pagelayouts.py`: the template method `render` and the two-column
    `LeftSidebarPage` layout, all plain string assembly. Each template is the
    text `textwrap.dedent` leaves, written as short pieces around the fields
    that `str.format` fills in. */
module PageLayouts {
  import opened Strings
  import opened Wrappers

  /** One entry of the author list: `auth_tuple[0]` is the Confluence user
      key and `auth_tuple[1]` the designation shown under it. */
  datatype Author = Author(userKey: string, designation: string)

  /** `LeftSidebarPage(sidebar_width, content_width)`. The sidebar width is
      stored but no template uses it. */
  datatype LeftSidebarPage = LeftSidebarPage(sidebarWidth: string, contentWidth: string)

  /** The constructor's defaults, which is also what `convtoconf` passes. */
  function DefaultPage(): LeftSidebarPage {
    LeftSidebarPage("20%", "900px")
  }

  // ---------------------------------------------------------------------
  // render_toc

  const EmptyCell: string := "<ac:layout-cell>" + "</ac:layout-cell>"
  /** The headings the table of contents leaves out, as a regular expression. */
  const TocExclude: string := "^(Authors|Table of Contents)$"
  const TocHead: string := TocLead + TocMacro + TocTrail
  const TocLead: string :=
    "\n<ac:layout-cell>\n" +
    "    <h1>Table of Contents</h1>\n" +
    "    <p><ac:structured-macro "
  const TocTrail: string :=
    " ac:schema-version=\"1\">\n" +
    "        <ac:parameter ac:name=\"exclude\">"
  const TocTail: string :=
    "</ac:parameter>\n" +
    "    </ac:structured-macro></p>\n" +
    "</ac:layout-cell>\n"
  /** The attribute naming the table-of-contents macro. */
  const TocMacro: string := "ac:name=\"toc\""

  /** The sidebar cell: the table-of-contents macro when the page has
      headers, an empty layout cell otherwise. */
  function RenderToc(hasToc: bool): string {
    if hasToc then TocHead + TocExclude + TocTail else EmptyCell
  }

  /** The sidebar holds the table-of-contents macro, excluding the `Authors`
      and `Table of Contents` headings, exactly when the page has headers. */
  lemma RenderTocRules(hasToc: bool)
    ensures Contains(RenderToc(hasToc), TocExclude) <==> hasToc
    ensures Contains(RenderToc(hasToc), TocMacro) <==> hasToc
  {
    TocMacroInHead();
    TocRulesGeneric(hasToc, EmptyCell, TocHead, TocExclude, TocTail, TocMacro);
  }

  lemma TocRulesGeneric(hasToc: bool, empty: string, head: string, excl: string, tail: string, macro: string)
    requires empty == EmptyCell && excl == TocExclude && macro == TocMacro
    requires Contains(head, macro)
    ensures Contains(if hasToc then head + excl + tail else empty, excl) <==> hasToc
    ensures Contains(if hasToc then head + excl + tail else empty, macro) <==> hasToc
  {
    assert '^' !in empty && '"' !in empty;
    assert excl[0] == '^';
    assert macro[8] == '"';
    if Contains(empty, excl) {
      ContainsChar(empty, excl, '^');
    }
    if Contains(empty, macro) {
      ContainsChar(empty, macro, '"');
    }
    ContainsMiddle(head, excl, tail);
    PrefixContains(head + excl + tail, head, macro);
  }

  lemma TocMacroInHead()
    ensures Contains(TocHead, TocMacro)
  {
    ContainsMiddle(TocLead, TocMacro, TocTrail);
  }

  // ---------------------------------------------------------------------
  // render_authors

  const ColTemplate: string := "<col style=\"width: 180px;\" />"

  const CellHead: string :=
    "\n<td rowspan=\"2\">\n" +
    "    <div class=\"content-wrapper\"><p>\n" +
    "        <ac:link>\n" +
    "            <ri:user ri:userkey=\""
  const CellMid: string :=
    "\" />\n" +
    "        </ac:link>\n" +
    "        <br />\n" +
    "        <span>"
  const CellTail: string :=
    "</span>\n" +
    "    </p></div>\n" +
    "</td>\n"

  /** The cell of one author: the user key in the user link, the designation
      in the span below it. */
  function AuthorCell(a: Author): string {
    CellHead + a.userKey + CellMid + a.designation + CellTail
  }

  /** Reads an author back out of a cell: the user key runs up to the first
      quote, and the designation fills the span. */
  function ParseCell(s: string): Option<Author> {
    match SplitFields(s, CellHead, CellMid, CellTail)
    case Some((key, designation)) => Some(Author(key, designation))
    case None => None
  }

  /** Each cell carries its author's fields where a reader finds them: the
      user key can be read back from the `ri:userkey` attribute and the
      designation from the span, so no field lands in the other's place. A
      key holding a quote would end the attribute early. */
  lemma AuthorCellRoundTrip(a: Author)
    requires '"' !in a.userKey
    ensures ParseCell(AuthorCell(a)) == Some(a)
  {
    assert CellMid[0] == '"';
    SplitFieldsRoundTrip(CellHead, a.userKey, CellMid, a.designation, CellTail);
  }

  /** The cells of the authors, one after the other in list order. */
  function Cells(authors: seq<Author>): string {
    ConcatMap(authors, AuthorCell)
  }

  /** One `<col>` element per column. */
  function ColGroup(n: nat): string {
    Repeat(ColTemplate, n)
  }

  const TableHead: string :=
    "\n<table class=\"relative-table\">\n" +
    "    <colgroup>\n" +
    "        "
  /** Up to the opening of the header cell, and the header cell's opening
      up to its column count. */
  const TableColspanHead: string :=
    "\n    </colgroup>\n" +
    "    <tbody>\n" +
    "    <tr>\n" +
    "        "
  const TableColspan: string := TableColspanHead + "<th colspan=\""
  /** From the end of the column count to the cell list. */
  const TableMidTail: string :=
    "\n" +
    "        <h2>Authors</h2></th>\n" +
    "    </tr>\n" +
    "    <tr>\n" +
    "        "
  const TableMid: string := "\">" + TableMidTail
  const TableTail: string :=
    "\n    </tr>\n" +
    "    </tbody>\n" +
    "</table>\n"

  /** The authors table around its three fields. */
  function AuthorsTable(colGroup: string, cols: nat, authorsList: string): string {
    TableHead + colGroup + TableColspan + NatToString(cols) + TableMid + authorsList + TableTail
  }

  /** What `render_authors` returns for a list, stated without the loop. */
  function AuthorsTableOf(authors: seq<Author>): string {
    AuthorsTable(ColGroup(|authors|), |authors|, Cells(authors))
  }

  /** `render_authors`: one cell and one column per author, accumulated in
      list order, then the table with the header spanning every column. */
  method RenderAuthors(authors: seq<Author>) returns (r: string)
    ensures r == AuthorsTableOf(authors)
  {
    var contributors := "";
    var colGroup := "";
    var i := 0;
    while i < |authors|
      invariant 0 <= i <= |authors|
      invariant contributors == Cells(authors[..i])
      invariant colGroup == ColGroup(i)
    {
      assert authors[..i + 1][..i] == authors[..i];
      contributors := contributors + AuthorCell(authors[i]);
      colGroup := colGroup + ColTemplate;
      i := i + 1;
    }
    assert authors[..|authors|] == authors;
    r := AuthorsTable(colGroup, |authors|, contributors);
  }

  /** Author `i`'s cell sits right after the cells of the authors before it
      and right before those of the authors after it, so the cells appear
      once each and in input order. */
  lemma CellPlacement(authors: seq<Author>, i: nat)
    requires i < |authors|
    ensures Cells(authors) ==
      Cells(authors[..i]) + AuthorCell(authors[i]) + Cells(authors[i + 1..])
    ensures OccursAt(Cells(authors), AuthorCell(authors[i]), |Cells(authors[..i])|)
  {
    ConcatMapAt(authors, i, AuthorCell);
    ContainsMiddle(Cells(authors[..i]), AuthorCell(authors[i]), Cells(authors[i + 1..]));
  }

  /** The column group is one 180-pixel column per author and nothing else. */
  lemma ColGroupCopies(n: nat)
    ensures |ColGroup(n)| == n * |ColTemplate|
    ensures forall i :: 0 <= i < n ==> OccursAt(ColGroup(n), ColTemplate, i * |ColTemplate|)
  {
    RepeatCopies(ColTemplate, n);
  }

  /** The header cell spans as many columns as there are authors, and the
      column group and the cell list follow the author list. */
  lemma AuthorsTableFields(authors: seq<Author>)
    ensures var t := AuthorsTableOf(authors);
      && OccursAt(t, ColGroup(|authors|), |TableHead|)
      && Contains(t, "<th colspan=\"" + NatToString(|authors|) + "\">")
      && OccursAt(t, Cells(authors), |t| - |TableTail| - |Cells(authors)|)
  {
    var n := NatToString(|authors|);
    TableFieldsGeneric(TableHead, ColGroup(|authors|), TableColspanHead, n, TableMidTail, Cells(authors), TableTail);
  }

  lemma TableFieldsGeneric(a: string, g: string, b: string, n: string, c: string, cells: string, d: string)
    ensures var t := a + g + (b + "<th colspan=\"") + n + ("\">" + c) + cells + d;
      && OccursAt(t, g, |a|)
      && Contains(t, "<th colspan=\"" + n + "\">")
      && OccursAt(t, cells, |t| - |d| - |cells|)
  {
    var th := "<th colspan=\"" + n + "\">";
    var t := a + g + (b + "<th colspan=\"") + n + ("\">" + c) + cells + d;
    assert t == a + g + (b + "<th colspan=\"" + n + "\">" + c + cells + d);
    ContainsMiddle(a, g, b + "<th colspan=\"" + n + "\">" + c + cells + d);
    assert t == a + g + b + th + (c + cells + d);
    ContainsMiddle(a + g + b, th, c + cells + d);
    assert t == a + g + (b + "<th colspan=\"") + n + ("\">" + c) + cells + d;
    ContainsMiddle(a + g + (b + "<th colspan=\"") + n + ("\">" + c), cells, d);
  }

  /** With no authors the table has no cells, no columns and spans zero
      columns. */
  lemma NoAuthors()
    ensures Cells([]) == "" && ColGroup(0) == ""
    ensures AuthorsTableOf([]) == AuthorsTable("", 0, "")
    ensures Contains(AuthorsTableOf([]), "colspan=\"0\"")
  {
    var t := AuthorsTableOf([]);
    var th := "<th colspan=\"" + NatToString(0) + "\">";
    assert Contains(t, th) by {
      AuthorsTableFields([]);
    }
    assert Contains(th, "colspan=\"0\"") by {
      assert NatToString(0) == "0";
      assert th == "<th " + "colspan=\"0\"" + ">";
      ContainsMiddle("<th ", "colspan=\"0\"", ">");
    }
    ContainsTrans(t, th, "colspan=\"0\"");
  }

  // ---------------------------------------------------------------------
  // render_page and render

  const LayoutHead: string :=
    "\n<ac:layout>\n" +
    "    <ac:layout-section" +
    " ac:type=\"two_left_sidebar\">\n" +
    "    "
  const LayoutMid: string := "\n    "
  const LayoutTail: string :=
    "\n    </ac:layout-section>\n" +
    "</ac:layout>\n"

  /** The main cell up to the column macro's width parameter. */
  const ColumnHead: string :=
    "\n<ac:layout-cell>\n" +
    "    <p class=\"auto-cursor-target\">" +
    "<br /></p>\n" +
    "    <ac:structured-macro" +
    " ac:name=\"column\" ac:schema-version=\"1\">\n" +
    "        <ac:parameter ac:name=\"width\">"
  const ColumnWidthEnd: string :=
    "</ac:parameter>\n" +
    "        <ac:rich-text-body>\n" +
    "            "
  /** Two empty paragraphs between the authors and the content. */
  const ColumnSpacer: string :=
    "\n" +
    "            <p class=\"auto-cursor-target\">" +
    "<br /></p>\n" +
    "            <p class=\"auto-cursor-target\">" +
    "<br /></p>\n" +
    "            "
  const ColumnTail: string :=
    "\n" +
    "        </ac:rich-text-body>\n" +
    "    </ac:structured-macro>\n" +
    "</ac:layout-cell>\n"

  /** The main cell: a column macro of the page's content width holding the
      authors table and then the content. */
  function MainCell(page: LeftSidebarPage, authors: string, content: string): string {
    ColumnHead + page.contentWidth + ColumnWidthEnd + authors + ColumnSpacer + content + ColumnTail
  }

  /** `render_page(content, authors, toc)`: the two-column layout section
      with the sidebar cell first and the main cell second. */
  function RenderPage(page: LeftSidebarPage, content: string, authors: string, toc: string): string {
    LayoutHead + toc + LayoutMid + MainCell(page, authors, content) + LayoutTail
  }

  /** The sidebar comes first, then the column macro with the content width,
      then the authors, then the content, each verbatim and none overlapping
      the next. */
  lemma RenderPagePlacement(page: LeftSidebarPage, content: string, authors: string, toc: string)
    ensures var r := RenderPage(page, content, authors, toc);
      var w := page.contentWidth;
      var iw := |LayoutHead| + |toc| + |LayoutMid| + |ColumnHead|;
      var ia := iw + |w| + |ColumnWidthEnd|;
      var ic := ia + |authors| + |ColumnSpacer|;
      && OccursAt(r, toc, |LayoutHead|)
      && OccursAt(r, ColumnHead, |LayoutHead| + |toc| + |LayoutMid|)
      && OccursAt(r, w, iw)
      && OccursAt(r, authors, ia)
      && OccursAt(r, content, ic)
      && OccursAt(r, ColumnTail, ic + |content|)
  {
    PagePlacementGeneric(LayoutHead, toc, LayoutMid, ColumnHead, page.contentWidth,
      ColumnWidthEnd, authors, ColumnSpacer, content, ColumnTail, LayoutTail);
  }

  lemma PagePlacementGeneric(lh: string, toc: string, lm: string, ch: string, w: string,
                             we: string, au: string, sp: string, co: string, ct: string, lt: string)
    ensures var r := lh + toc + lm + (ch + w + we + au + sp + co + ct) + lt;
      var iw := |lh| + |toc| + |lm| + |ch|;
      var ia := iw + |w| + |we|;
      var ic := ia + |au| + |sp|;
      && OccursAt(r, toc, |lh|)
      && OccursAt(r, ch, |lh| + |toc| + |lm|)
      && OccursAt(r, w, iw)
      && OccursAt(r, au, ia)
      && OccursAt(r, co, ic)
      && OccursAt(r, ct, ic + |co|)
  {
    var m := ch + w + we + au + sp + co + ct;
    var pre := lh + toc + lm;
    MainPlacement(ch, w, we, au, sp, co, ct);
    PlaceInPage(pre, m, lt, ch, 0);
    PlaceInPage(pre, m, lt, w, |ch|);
    PlaceInPage(pre, m, lt, au, |ch| + |w| + |we|);
    PlaceInPage(pre, m, lt, co, |ch| + |w| + |we| + |au| + |sp|);
    PlaceInPage(pre, m, lt, ct, |ch| + |w| + |we| + |au| + |sp| + |co|);
    OccursEnd(lh, toc);
    OccursExtend(lh + toc, toc, |lh|, lm);
    OccursExtend(pre, toc, |lh|, m);
    OccursExtend(pre + m, toc, |lh|, lt);
  }

  lemma PlaceInPage(pre: string, m: string, post: string, p: string, i: int)
    requires OccursAt(m, p, i)
    ensures OccursAt(pre + m + post, p, |pre| + i)
  {
    OccursShift(pre, m, p, i);
    OccursExtend(pre + m, p, |pre| + i, post);
  }

  /** Where each field of the main cell sits. */
  lemma MainPlacement(ch: string, w: string, we: string, au: string, sp: string, co: string, ct: string)
    ensures var m := ch + w + we + au + sp + co + ct;
      && OccursAt(m, ch, 0)
      && OccursAt(m, w, |ch|)
      && OccursAt(m, au, |ch| + |w| + |we|)
      && OccursAt(m, co, |ch| + |w| + |we| + |au| + |sp|)
      && OccursAt(m, ct, |ch| + |w| + |we| + |au| + |sp| + |co|)
  {
    var m1, m2, m3, m4, m5 := ch + w, ch + w + we, ch + w + we + au, ch + w + we + au + sp, ch + w + we + au + sp + co;
    OccursEnd("", ch);
    assert "" + ch == ch;
    ExtendSix(ch, ch, 0, w, we, au, sp, co, ct);
    OccursEnd(ch, w);
    ExtendSix(m1, w, |ch|, we, au, sp, co, ct, "");
    assert m1 + we + au + sp + co + ct + "" == m1 + we + au + sp + co + ct;
    OccursEnd(m2, au);
    OccursExtend(m3, au, |m2|, sp);
    OccursExtend(m4, au, |m2|, co);
    OccursExtend(m5, au, |m2|, ct);
    OccursEnd(m4, co);
    OccursExtend(m5, co, |m4|, ct);
    OccursEnd(m5, ct);
  }

  lemma ExtendSix(s: string, p: string, i: int, a: string, b: string, c: string, d: string, e: string, f: string)
    requires OccursAt(s, p, i)
    ensures OccursAt(s + a + b + c + d + e + f, p, i)
  {
    OccursExtend(s, p, i, a);
    OccursExtend(s + a, p, i, b);
    OccursExtend(s + a + b, p, i, c);
    OccursExtend(s + a + b + c, p, i, d);
    OccursExtend(s + a + b + c + d, p, i, e);
    OccursExtend(s + a + b + c + d + e, p, i, f);
  }

  /** The sidebar width given to the constructor has no effect on the page. */
  lemma SidebarWidthUnused(page: LeftSidebarPage, width: string, content: string, authors: string, toc: string)
    ensures RenderPage(page.(sidebarWidth := width), content, authors, toc) ==
      RenderPage(page, content, authors, toc)
  {
  }

  /** The template method `render`: the sidebar from `render_toc`, the authors
      table from `render_authors`, then `render_page` with the content, the
      table and the sidebar in that argument order. */
  method Render(page: LeftSidebarPage, content: string, authors: seq<Author>, hasToc: bool)
    returns (r: string)
    ensures r == RenderPage(page, content, AuthorsTableOf(authors), RenderToc(hasToc))
  {
    var toc := RenderToc(hasToc);
    var contributors := RenderAuthors(authors);
    r := RenderPage(page, content, contributors, toc);
  }

  /** A rendered page shows its sidebar before the authors table and the
      authors table before the content, all verbatim. */
  lemma RenderOrder(page: LeftSidebarPage, content: string, authors: seq<Author>, hasToc: bool)
    ensures var r := RenderPage(page, content, AuthorsTableOf(authors), RenderToc(hasToc));
      var toc := RenderToc(hasToc);
      var table := AuthorsTableOf(authors);
      exists i, j, k ::
        && i + |toc| <= j && j + |table| <= k
        && OccursAt(r, toc, i) && OccursAt(r, table, j) && OccursAt(r, content, k)
  {
    var toc, table := RenderToc(hasToc), AuthorsTableOf(authors);
    var r := RenderPage(page, content, table, toc);
    assert r == LayoutHead + toc + LayoutMid + MainCell(page, table, content) + LayoutTail;
    OrderGeneric(LayoutHead, toc, LayoutMid, ColumnHead, page.contentWidth,
      ColumnWidthEnd, table, ColumnSpacer, content, ColumnTail, LayoutTail);
  }

  lemma OrderGeneric(lh: string, toc: string, lm: string, ch: string, w: string,
                     we: string, au: string, sp: string, co: string, ct: string, lt: string)
    ensures var r := lh + toc + lm + (ch + w + we + au + sp + co + ct) + lt;
      exists i, j, k ::
        && i + |toc| <= j && j + |au| <= k
        && OccursAt(r, toc, i) && OccursAt(r, au, j) && OccursAt(r, co, k)
  {
    var r := lh + toc + lm + (ch + w + we + au + sp + co + ct) + lt;
    PagePlacementGeneric(lh, toc, lm, ch, w, we, au, sp, co, ct, lt);
    var ia := |lh| + |toc| + |lm| + |ch| + |w| + |we|;
    InOrder(r, toc, au, co, |lh|, ia, ia + |au| + |sp|);
  }

  lemma InOrder(r: string, a: string, b: string, c: string, i: int, j: int, k: int)
    requires i + |a| <= j && j + |b| <= k
    requires OccursAt(r, a, i) && OccursAt(r, b, j) && OccursAt(r, c, k)
    ensures exists i, j, k ::
      && i + |a| <= j && j + |b| <= k
      && OccursAt(r, a, i) && OccursAt(r, b, j) && OccursAt(r, c, k)
  {
  }
}
