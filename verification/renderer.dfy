/** `ConfluenceRenderer` and `convtoconf` from `convert.py`: the mistune
    renderer hooks that emit Confluence storage markup, the state they keep
    (whether a table of contents is needed, which files to attach), and the
    page assembly. Mistune's own parser, its default `header` and `link`
    renderers, `mistune.escape` and `urlparse` are not part of this model;
    they reach it as the functions of an `Env`. */
module Renderer {
  import opened Wrappers
  import opened Strings
  import opened PosixPath
  import opened Links
  import opened Alerts
  import opened PageLayouts

  /** What the model needs from outside the converter: mistune's default
      `header(text, level, raw)` and `link(src, title, text)` output,
      `mistune.escape(s, quote=True)`, and whether `urlparse(src).netloc` is
      non-empty. */
  datatype Env = Env(
    defaultHeader: (string, int, Option<string>) -> string,
    defaultLink: (string, Option<string>, string) -> string,
    escapeQuoted: string -> string,
    hasNetloc: string -> bool)

  /** The mutable part of a renderer: `has_toc` and `attachments`. */
  datatype RenderState = RenderState(hasToc: bool, attachments: seq<string>)

  const InitialState: RenderState := RenderState(false, [])

  /** A `ConfluenceRenderer`: its page layout, its page-title callback (`None`
      when the value given was not callable) and its state. */
  datatype ConfluenceRenderer = ConfluenceRenderer(
    page: LeftSidebarPage,
    getPageTitle: Option<string -> string>,
    state: RenderState)

  /** The `page_layout` argument: absent or falsy, some other object, or a
      page layout. */
  datatype LayoutArg = NoLayout | NotALayout | PageLayout(layout: LeftSidebarPage)

  /** `InvalidArgumentException`, reduced to the name of the argument. */
  datatype InvalidArgument = InvalidArgument(argName: string)

  /** `ConfluenceRenderer.__init__`: rejects a `page_layout` that is not a page
      layout and otherwise starts with no table of contents and no
      attachments; a title callback that is not callable is dropped. */
  function NewRenderer(pageLayout: LayoutArg, getTitle: Option<string -> string>)
    : (r: Result<ConfluenceRenderer, InvalidArgument>)
    ensures r.Failure? <==> !pageLayout.PageLayout?
    ensures r.Failure? ==> r.error == InvalidArgument("page_layout")
    ensures r.Success? ==>
      r.value.page == pageLayout.layout && r.value.getPageTitle == getTitle &&
      !r.value.state.hasToc && r.value.state.attachments == []
  {
    match pageLayout
    case PageLayout(p) => Success(ConfluenceRenderer(p, getTitle, InitialState))
    case _ => Failure(InvalidArgument("page_layout"))
  }

  /** The markup a hook returns together with the renderer after the call. */
  datatype Step = Step(html: string, next: ConfluenceRenderer)

  // ---------------------------------------------------------------------
  // Templates, as the text `textwrap.dedent` leaves, cut around the fields

  const CodeHead: string :=
    "<ac:structured-macro ac:name=\"code\" " +
    "ac:schema-version=\"1\">\n    " +
    "<ac:parameter ac:name=\"language\">"
  const CodeMid: string :=
    "</ac:parameter>\n    " +
    "<ac:plain-text-body><![CDATA["
  const CodeTail: string :=
    "]]></ac:plain-text-body>\n" +
    "</ac:structured-macro>\n"

  const AttachmentLinkHead: string := "<ac:link>\n    " + "<ri:attachment ri:filename=\""
  const PageLinkHead: string := "<ac:link>\n    " + "<ri:page ri:content-title=\""
  const HeadingLinkHead: string := "<ac:link ac:anchor=\""
  const LinkBody: string := "<ac:plain-text-link-body>\n        " + "<![CDATA["
  const LinkMid: string := "\" />\n    " + LinkBody
  const HeadingLinkMid: string := "\">\n    " + LinkBody
  const LinkTail: string :=
    "]]>\n    " +
    "</ac:plain-text-link-body>\n" +
    "</ac:link>\n"

  const ImageHead: string := "<ac:image ac:align=\"center\">"
  const UrlRefHead: string := "<ri:url ri:value=\""
  const AttachmentRefHead: string := "<ri:attachment ri:filename=\""
  const RefTail: string := "\" />"
  const CaptionHead: string := " <div style=\"text-align: center;\">" + "<em>"
  const CaptionTail: string := "</em></div></ac:image>"

  const LineBreakTag: string := "<br />"
  const HRuleTag: string := "<hr />"

  // ---------------------------------------------------------------------
  // Hooks

  /** `header`: records that the page needs a table of contents and renders
      the heading as mistune does. */
  function Header(env: Env, r: ConfluenceRenderer, text: string, level: int, raw: Option<string>)
    : (s: Step)
    ensures s.next == r.(state := r.state.(hasToc := true))
  {
    Step(env.defaultHeader(text, level, raw), r.(state := r.state.(hasToc := true)))
  }

  /** `lang or 'text'`: a missing or empty language falls back to `text`. */
  function CodeLanguage(lang: Option<string>): (l: string)
    ensures |l| > 0
    ensures lang.Some? && lang.value != "" ==> l == lang.value
    ensures lang.None? || lang.value == "" ==> l == "text"
  {
    if lang.Some? && lang.value != "" then lang.value else "text"
  }

  function BlockCode(code: string, lang: Option<string>): string {
    CodeHead + CodeLanguage(lang) + CodeMid + code + CodeTail
  }

  /** The code macro names the language and carries the code verbatim,
      whatever the code holds, as long as the language has no '<'. */
  lemma BlockCodeRoundTrip(code: string, lang: Option<string>)
    requires '<' !in CodeLanguage(lang)
    ensures SplitFields(BlockCode(code, lang), CodeHead, CodeMid, CodeTail) ==
      Some((CodeLanguage(lang), code))
  {
    assert CodeMid[0] == '<';
    SplitFieldsRoundTrip(CodeHead, CodeLanguage(lang), CodeMid, code, CodeTail);
  }

  /** The characters `alt_text.strip('*_')` removes. */
  predicate Emphasis(c: char) {
    c == '*' || c == '_'
  }

  function Caption(altText: string): string {
    StripBy(altText, Emphasis)
  }

  /** The caption is one slice of the alt text, with only '*' and '_' cut off
      either side and neither end left on one of them. */
  lemma CaptionSpec(altText: string)
    ensures exists i :: StrippedAt(altText, Caption(altText), i, Emphasis)
    ensures var c := Caption(altText); |c| == 0 || (!Emphasis(c[0]) && !Emphasis(c[|c| - 1]))
  {
    StripBySpec(altText, Emphasis);
    var i := |RStrip(altText, Emphasis)| - |Caption(altText)|;
    assert StrippedAt(altText, Caption(altText), i, Emphasis);
  }

  /** The path an image is uploaded under: leading separators removed, then a
      leading `images` cut off (the separator after it stays). */
  function AttachmentPath(src: string): string {
    var a := LStrip(src, c => c == '/');
    if StartsWith(a, AssetsDir) then a[|AssetsDir|..] else a
  }

  lemma {:induction false} LStripDropped(a: string, s: string, drop: char -> bool)
    requires forall i :: 0 <= i < |a| ==> drop(a[i])
    ensures LStrip(a + s, drop) == LStrip(s, drop)
    decreases |a|
  {
    if |a| > 0 {
      assert (a + s)[0] == a[0];
      assert (a + s)[1..] == a[1..] + s;
      LStripDropped(a[1..], s, drop);
    } else {
      assert a + s == s;
    }
  }

  /** An image under the assets directory, however many separators lead,
      is uploaded under the rest of its path after `images`. */
  lemma AttachmentPathInAssets(slashes: string, rest: string)
    requires AllChar(slashes, '/')
    ensures AttachmentPath(slashes + AssetsDir + rest) == rest
  {
    assert slashes + AssetsDir + rest == slashes + (AssetsDir + rest);
    LStripDropped(slashes, AssetsDir + rest, c => c == '/');
    assert (AssetsDir + rest)[0] == 'i';
    assert (AssetsDir + rest)[..|AssetsDir|] == AssetsDir;
    assert (AssetsDir + rest)[|AssetsDir|..] == rest;
  }

  /** Any other image keeps its path, less the leading separators. */
  lemma AttachmentPathElsewhere(slashes: string, rest: string)
    requires AllChar(slashes, '/')
    requires |rest| == 0 || rest[0] != '/'
    requires !StartsWith(rest, AssetsDir)
    ensures AttachmentPath(slashes + rest) == rest
  {
    LStripDropped(slashes, rest, c => c == '/');
  }

  /** `<ri:url …/>` for an external image, `<ri:attachment …/>` for a local one. */
  function ImageRef(external: bool, src: string): string {
    if external then UrlRefHead + src + RefTail
    else AttachmentRefHead + BaseName(src) + RefTail
  }

  function ImageMarkup(ref: string, caption: string): string {
    ImageHead + ref + CaptionHead + caption + CaptionTail
  }

  /** `image`: a centred image with its caption; a local image is also
      queued for upload. The `title` attribute is not used. */
  function Image(env: Env, r: ConfluenceRenderer, src: string, title: Option<string>, altText: string)
    : (s: Step)
    ensures s.next == if env.hasNetloc(src) then r
      else r.(state := r.state.(attachments := r.state.attachments + [AttachmentPath(src)]))
  {
    var external := env.hasNetloc(src);
    var html := ImageMarkup(ImageRef(external, src), Caption(altText));
    if external then Step(html, r)
    else Step(html, r.(state := r.state.(attachments := r.state.attachments + [AttachmentPath(src)])))
  }

  lemma NestedRoundTrip(a: string, b: string, x: string, c: string, d: string, y: string, e: string)
    requires |c| > 0 && c[0] !in x
    ensures SplitFields(a + (b + x + c) + d + y + e, a + b, c + d, e) == Some((x, y))
  {
    assert a + (b + x + c) + d + y + e == (a + b) + x + (c + d) + y + e;
    assert (c + d)[0] == c[0];
    SplitFieldsRoundTrip(a + b, x, c + d, y, e);
  }

  /** An external image refers to its URL and a local one to its file name,
      and either shows the stripped alt text as caption. */
  lemma ImageRoundTrip(env: Env, r: ConfluenceRenderer, src: string, title: Option<string>, altText: string)
    requires '"' !in src
    ensures var html := Image(env, r, src, title, altText).html;
      if env.hasNetloc(src) then
        SplitFields(html, ImageHead + UrlRefHead, RefTail + CaptionHead, CaptionTail) ==
          Some((src, Caption(altText)))
      else
        SplitFields(html, ImageHead + AttachmentRefHead, RefTail + CaptionHead, CaptionTail) ==
          Some((BaseName(src), Caption(altText)))
  {
    assert RefTail[0] == '"';
    if env.hasNetloc(src) {
      NestedRoundTrip(ImageHead, UrlRefHead, src, RefTail, CaptionHead, Caption(altText), CaptionTail);
    } else {
      assert '"' !in BaseName(src) by {
        assert EndsWith(src, BaseName(src));
        var b := BaseName(src);
        forall j | 0 <= j < |b|
          ensures b[j] != '"'
        {
          assert b[j] == src[|src| - |b| + j];
        }
      }
      NestedRoundTrip(ImageHead, AttachmentRefHead, BaseName(src), RefTail, CaptionHead,
        Caption(altText), CaptionTail);
    }
  }

  function AttachmentLink(file: string, text: string): string {
    AttachmentLinkHead + file + LinkMid + text + LinkTail
  }

  function PageLink(title: string, text: string): string {
    PageLinkHead + title + LinkMid + text + LinkTail
  }

  function HeadingLink(heading: string, text: string): string {
    HeadingLinkHead + heading + HeadingLinkMid + text + LinkTail
  }

  /** The title a page reference shows: the escaped result of the title
      callback when there is one, otherwise the link's own title, or empty. */
  function PageTitle(env: Env, getPageTitle: Option<string -> string>, src: string, title: Option<string>)
    : string
  {
    match getPageTitle
    case Some(f) => env.escapeQuoted(f(src))
    case None => title.GetOr("")
  }

  /** `link`: external links and links of unknown kind are rendered by
      mistune; an attachment link is queued for upload and links the file;
      a page reference links the page by title; a heading link anchors on the
      link's title attribute. */
  function Link(env: Env, r: ConfluenceRenderer, src: string, title: Option<string>, text: string)
    : (s: Step)
    ensures s.next == if !env.hasNetloc(src) && ResolveLink(src) == Attachment
      then r.(state := r.state.(attachments := r.state.attachments + [src]))
      else r
  {
    if env.hasNetloc(src) then Step(env.defaultLink(src, title, text), r)
    else
      match ResolveLink(src)
      case Attachment =>
        Step(AttachmentLink(BaseName(src), text),
          r.(state := r.state.(attachments := r.state.attachments + [src])))
      case MdPageReference =>
        Step(PageLink(PageTitle(env, r.getPageTitle, src, title), text), r)
      case Heading =>
        Step(HeadingLink(title.GetOr(""), text), r)
      case Unknown =>
        Step(env.defaultLink(src, title, text), r)
  }

  lemma NoQuoteInBaseName(src: string)
    requires '"' !in src
    ensures '"' !in BaseName(src)
  {
    var b := BaseName(src);
    forall j | 0 <= j < |b|
      ensures b[j] != '"'
    {
      assert b[j] == src[|src| - |b| + j];
    }
  }

  /** What a link renders to, by kind: the file name or page title or anchor
      comes back out of the markup, and so does the link text, verbatim. */
  lemma LinkRoundTrip(env: Env, r: ConfluenceRenderer, src: string, title: Option<string>, text: string)
    ensures var s := Link(env, r, src, title, text);
      (env.hasNetloc(src) || ResolveLink(src) == Unknown) ==>
        s.html == env.defaultLink(src, title, text) && s.next == r
    ensures var s := Link(env, r, src, title, text);
      !env.hasNetloc(src) && ResolveLink(src) == Attachment && '"' !in src ==>
        SplitFields(s.html, AttachmentLinkHead, LinkMid, LinkTail) == Some((BaseName(src), text))
    ensures var s := Link(env, r, src, title, text);
      r.getPageTitle.Some? ==> var t := env.escapeQuoted(r.getPageTitle.value(src));
      !env.hasNetloc(src) && ResolveLink(src) == MdPageReference && '"' !in t ==>
        SplitFields(s.html, PageLinkHead, LinkMid, LinkTail) == Some((t, text))
    ensures var s := Link(env, r, src, title, text);
      r.getPageTitle.None? ==> var t := title.GetOr("");
      !env.hasNetloc(src) && ResolveLink(src) == MdPageReference && '"' !in t ==>
        SplitFields(s.html, PageLinkHead, LinkMid, LinkTail) == Some((t, text))
    ensures var s := Link(env, r, src, title, text);
      !env.hasNetloc(src) && ResolveLink(src) == Heading && '"' !in title.GetOr("") ==>
        SplitFields(s.html, HeadingLinkHead, HeadingLinkMid, LinkTail) == Some((title.GetOr(""), text))
  {
    if !env.hasNetloc(src) {
      match ResolveLink(src)
      case Attachment =>
        if '"' !in src {
          NoQuoteInBaseName(src);
          AttachmentLinkRoundTrip(BaseName(src), text);
        }
      case MdPageReference =>
        var t := PageTitle(env, r.getPageTitle, src, title);
        if '"' !in t {
          PageLinkRoundTrip(t, text);
        }
      case Heading =>
        if '"' !in title.GetOr("") {
          HeadingLinkRoundTrip(title.GetOr(""), text);
        }
      case Unknown =>
    }
  }

  lemma AttachmentLinkRoundTrip(file: string, text: string)
    requires '"' !in file
    ensures SplitFields(AttachmentLink(file, text), AttachmentLinkHead, LinkMid, LinkTail) == Some((file, text))
  {
    assert LinkMid[0] == '"';
    SplitFieldsRoundTrip(AttachmentLinkHead, file, LinkMid, text, LinkTail);
  }

  lemma PageLinkRoundTrip(title: string, text: string)
    requires '"' !in title
    ensures SplitFields(PageLink(title, text), PageLinkHead, LinkMid, LinkTail) == Some((title, text))
  {
    assert LinkMid[0] == '"';
    SplitFieldsRoundTrip(PageLinkHead, title, LinkMid, text, LinkTail);
  }

  lemma HeadingLinkRoundTrip(heading: string, text: string)
    requires '"' !in heading
    ensures SplitFields(HeadingLink(heading, text), HeadingLinkHead, HeadingLinkMid, LinkTail)
      == Some((heading, text))
  {
    assert HeadingLinkMid[0] == '"';
    SplitFieldsRoundTrip(HeadingLinkHead, heading, HeadingLinkMid, text, LinkTail);
  }

  // ---------------------------------------------------------------------
  // A run of hook calls

  /** One call mistune makes into the renderer while it walks a document. */
  datatype HookCall =
    | HeaderCall(text: string, level: int, raw: Option<string>)
    | BlockCodeCall(code: string, lang: Option<string>)
    | LineBreakCall
    | HRuleCall
    | ImageCall(imageSrc: string, imageTitle: Option<string>, altText: string)
    | LinkCall(linkSrc: string, linkTitle: Option<string>, linkText: string)

  /** The files one call queues for upload: a local image under its
      attachment path, and a local link into the assets directory as written. */
  function Uploads(env: Env, call: HookCall): seq<string> {
    match call
    case ImageCall(src, _, _) => if env.hasNetloc(src) then [] else [AttachmentPath(src)]
    case LinkCall(src, _, _) =>
      if !env.hasNetloc(src) && ResolveLink(src) == Attachment then [src] else []
    case _ => []
  }

  /** Dispatches one call to its hook. Only headings touch `has_toc`, which
      they set; only the uploads of `Uploads` are appended to `attachments`;
      the layout and the title callback never change. */
  function Apply(env: Env, r: ConfluenceRenderer, call: HookCall): (s: Step)
    ensures s.next.page == r.page && s.next.getPageTitle == r.getPageTitle
    ensures s.next.state.hasToc == (r.state.hasToc || call.HeaderCall?)
    ensures s.next.state.attachments == r.state.attachments + Uploads(env, call)
  {
    match call
    case HeaderCall(text, level, raw) => Header(env, r, text, level, raw)
    case BlockCodeCall(code, lang) => Step(BlockCode(code, lang), r)
    case LineBreakCall => Step(LineBreakTag, r)
    case HRuleCall => Step(HRuleTag, r)
    case ImageCall(src, title, alt) => Image(env, r, src, title, alt)
    case LinkCall(src, title, text) => Link(env, r, src, title, text)
  }

  /** The output of a hook depends on the renderer only through its title
      callback, never on its state. */
  lemma ApplyStateless(env: Env, r: ConfluenceRenderer, r': ConfluenceRenderer, call: HookCall)
    requires r.getPageTitle == r'.getPageTitle
    ensures Apply(env, r, call).html == Apply(env, r', call).html
  {
  }

  datatype Trace = Trace(outputs: seq<string>, last: ConfluenceRenderer)

  /** The renderer driven through `calls` in order, with every hook's output. */
  function Run(env: Env, r: ConfluenceRenderer, calls: seq<HookCall>): (t: Trace)
    ensures |t.outputs| == |calls|
    ensures t.last.page == r.page && t.last.getPageTitle == r.getPageTitle
    decreases |calls|
  {
    if |calls| == 0 then Trace([], r)
    else
      var prev := Run(env, r, calls[..|calls| - 1]);
      var s := Apply(env, prev.last, calls[|calls| - 1]);
      Trace(prev.outputs + [s.html], s.next)
  }

  /** Every upload of a run of calls, in call order. */
  function AllUploads(env: Env, calls: seq<HookCall>): seq<string>
    decreases |calls|
  {
    if |calls| == 0 then [] else AllUploads(env, calls[..|calls| - 1]) + Uploads(env, calls[|calls| - 1])
  }

  /** Some call of the run is a heading. */
  predicate HasHeading(calls: seq<HookCall>) {
    exists i :: 0 <= i < |calls| && calls[i].HeaderCall?
  }

  lemma HasHeadingSnoc(calls: seq<HookCall>)
    requires |calls| > 0
    ensures HasHeading(calls) <==>
      HasHeading(calls[..|calls| - 1]) || calls[|calls| - 1].HeaderCall?
  {
    var init := calls[..|calls| - 1];
    if HasHeading(init) {
      var i :| 0 <= i < |init| && init[i].HeaderCall?;
      assert calls[i] == init[i];
    }
    if HasHeading(calls) {
      var i :| 0 <= i < |calls| && calls[i].HeaderCall?;
      if i < |init| {
        assert init[i] == calls[i];
      }
    }
  }

  /** After a run the renderer needs a table of contents exactly when it
      already did or some call was a heading. */
  lemma {:induction false} RunHasToc(env: Env, r: ConfluenceRenderer, calls: seq<HookCall>)
    ensures Run(env, r, calls).last.state.hasToc <==> r.state.hasToc || HasHeading(calls)
    decreases |calls|
  {
    if |calls| > 0 {
      RunHasToc(env, r, calls[..|calls| - 1]);
      HasHeadingSnoc(calls);
    }
  }

  /** After a run the attachments are the earlier ones followed by the
      uploads of each call, in call order. */
  lemma {:induction false} RunAttachments(env: Env, r: ConfluenceRenderer, calls: seq<HookCall>)
    ensures Run(env, r, calls).last.state.attachments == r.state.attachments + AllUploads(env, calls)
    decreases |calls|
  {
    if |calls| > 0 {
      RunAttachments(env, r, calls[..|calls| - 1]);
    }
  }

  /** What each call renders on its own, in call order. */
  function Outputs(env: Env, r: ConfluenceRenderer, calls: seq<HookCall>): (out: seq<string>)
    ensures |out| == |calls|
    ensures forall i :: 0 <= i < |calls| ==> out[i] == Apply(env, r, calls[i]).html
  {
    seq(|calls|, i requires 0 <= i < |calls| => Apply(env, r, calls[i]).html)
  }

  /** Each output of a run is what that hook renders on its own: no hook's
      markup depends on the calls before it. */
  lemma {:induction false} RunOutputs(env: Env, r: ConfluenceRenderer, calls: seq<HookCall>)
    ensures Run(env, r, calls).outputs == Outputs(env, r, calls)
    decreases |calls|
  {
    if |calls| > 0 {
      var init := calls[..|calls| - 1];
      var last := calls[|calls| - 1];
      RunOutputs(env, r, init);
      var prev := Run(env, r, init);
      var step := Apply(env, prev.last, last);
      assert Run(env, r, calls).outputs == prev.outputs + [step.html];
      ApplyStateless(env, prev.last, r, last);
      var out := Outputs(env, r, calls);
      forall i | 0 <= i < |calls|
        ensures (prev.outputs + [step.html])[i] == out[i]
      {
        if i < |init| {
          assert calls[i] == init[i];
          assert (prev.outputs + [step.html])[i] == prev.outputs[i];
          assert prev.outputs[i] == Outputs(env, r, init)[i];
        } else {
          assert (prev.outputs + [step.html])[i] == step.html;
        }
      }
    }
  }

  /** `layout`: the page layout renders the content with the authors (none
      when absent) and with a table of contents when a heading was seen. */
  method Layout(r: ConfluenceRenderer, content: string, authors: Option<seq<Author>>)
    returns (html: string)
    ensures html == RenderPage(r.page, content, AuthorsTableOf(authors.GetOr([])), RenderToc(r.state.hasToc))
  {
    html := Render(r.page, content, authors.GetOr([]), r.state.hasToc);
  }

  /** `convtoconf`: a renderer on the default page layout is driven through
      the hook calls mistune makes for the document, mistune joins their
      outputs into the content (`assemble`), the info macros are rewritten,
      and the page is laid out with the front matter's `author_keys` (`None`
      when the front matter, or the key, is missing). Returns the page and
      the files to upload. */
  method ConvToConf(env: Env, getTitle: Option<string -> string>, calls: seq<HookCall>,
                    assemble: seq<string> -> string, authorKeys: Option<seq<Author>>)
    returns (pageHtml: string, attachments: seq<string>)
    ensures attachments == AllUploads(env, calls)
    ensures var r0 := ConfluenceRenderer(DefaultPage(), getTitle, InitialState);
      pageHtml == RenderPage(DefaultPage(), ConvertInfoMacros(assemble(Outputs(env, r0, calls))),
        AuthorsTableOf(authorKeys.GetOr([])),
        RenderToc(HasHeading(calls)))
  {
    var made := NewRenderer(PageLayout(DefaultPage()), getTitle);
    var r0 := made.value;
    assert r0 == ConfluenceRenderer(DefaultPage(), getTitle, InitialState);
    var outputs, last := Drive(env, r0, calls);
    var content := ConvertInfoMacros(assemble(outputs));
    assert last.page == DefaultPage() && last.state.hasToc == HasHeading(calls);
    pageHtml := Layout(last, content, authorKeys);
    attachments := last.state.attachments;
  }

  /** mistune's side of the conversion: the hooks called in document order
      on one renderer, summarised by what the run lemmas prove. */
  method Drive(env: Env, r: ConfluenceRenderer, calls: seq<HookCall>)
    returns (outputs: seq<string>, last: ConfluenceRenderer)
    ensures outputs == Outputs(env, r, calls)
    ensures last.page == r.page
    ensures last.state.hasToc <==> r.state.hasToc || HasHeading(calls)
    ensures last.state.attachments == r.state.attachments + AllUploads(env, calls)
  {
    var t := Run(env, r, calls);
    RunHasToc(env, r, calls);
    RunAttachments(env, r, calls);
    RunOutputs(env, r, calls);
    outputs, last := t.outputs, t.last;
  }
}
