# markdown-to-confluence converter core, in Dafny

This project models the core of a tool that turns Markdown documents with YAML front
matter into Confluence storage-format pages. It covers three source files.

- `convert.py`
  - The front-matter line splitter `parse`.
  - The alert rewriter `convert_info_macros`.
  - The link classifier `resolve_link`.
  - The mistune renderer `ConfluenceRenderer`: its constructor and the `header`,
    `block_code`, `linebreak`, `hrule`, `image`, `link` and `layout` hooks.
  - `convtoconf`, which ties these together.
- `pagelayouts.py`
  - The template method `render`.
  - The two-column `LeftSidebarPage` layout: `render_toc`, `render_authors` and
    `render_page`.
- `docs.py`
  - `normalize_path`.
  - The slug of a `MarkdownFile`.
  - The insertion-ordered `Directory` index with substring lookup.
  - The filtering rules of the repository scan.
  - The first-match title lookup `get_title`.

Everything is modelled as pure functions over strings and sequences. The renderer's
mutable fields `has_toc` and `attachments` become a `RenderState` record. Each hook
returns its markup together with the renderer after the call. A run of hook calls,
made in the order mistune makes them, is folded over that record.

Modules, one per file:

| module | file | models |
|---|---|---|
| `Wrappers` | wrappers.dfy | `Option` and `Result` |
| `Strings` | strings.dfy | Python's `startswith`, `in`, `replace` (left to right, non-overlapping), the `strip` family, `rfind` and `str(n)` |
| `PosixPath` | posixpath.dfy | `basename`, `dirname`, `splitext` (extension only) and `join`, with `posixpath` semantics |
| `FrontMatter` | frontmatter.dfy | the line machine of `parse` |
| `Alerts` | alerts.dfy | `convert_info_macros`: 24 replacement rules in three passes, applied in source order |
| `AlertPasses` | alert_passes.dfy | how the three passes share out an alert written inside one paragraph, or as two delimiter-only paragraphs around some text |
| `Links` | links.dfy | `Link` and `resolve_link` |
| `PageLayouts` | pagelayouts.dfy | `render`, `render_toc`, `render_authors`, `render_page` |
| `Renderer` | renderer.dfy | `ConfluenceRenderer`, its hooks, a run of hook calls, `convtoconf` |
| `OrderedMaps` | orderedmaps.dfy | an insertion-ordered Python `dict`: assignment keeps a key's position |
| `Docs` | docs.dfy | `normalize_path`, slugs, `Directory`, the scan, `get_title` |

Every template is written as the text `textwrap.dedent` leaves. It is cut into constant
pieces around the fields that `str.format` fills in.

Behaviour kept as the code has it:

- **Heading anchors.** A heading link takes its anchor from the link's `title` attribute
  (or `''`), not from its target.
- **Slug argument order.** `MarkdownFile.__init__` calls `__get_slug__(dir_name, file_name)`,
  but the definition names its parameters `(file_name, parent_dir)`. So a slug is the file
  name (extension included), `_`, then the directory name.
- **Image attachment paths.** An image's attachment path has its leading `/` characters
  removed, then a leading `images` cut off. The separator after `images` stays, so
  `images/pic.png` is recorded as `/pic.png`.
- **Link attachment paths.** A link to an attachment is recorded exactly as written.
- **`normalize_path`.** It turns every `/` into `\`, then removes leading `..\` copies. As
  a result, a reference that still has a directory part once its leading `../` are removed
  can never match an index whose paths use `/` (`Docs.GetTitleNeedsBackslashPaths`).
- **Missing `content` directory.** When `docs.py` finds no `content` directory, the assertion
  message it would build names undefined identifiers. Python therefore raises `NameError`
  rather than `AssertionError`. The model reports this case as the failure
  `DocsRootMissing`.

## Model

| member | source | states |
|---|---|---|
| FrontMatter.RouteLines | convert.py:33-47 | The lines before the first boundary line are the front matter and the lines after it the body. A boundary line is one that strips to `---` once the front matter is non-empty; it is dropped. Front matter, boundary line and body rebuild the post. With no boundary line everything is front matter and the body is empty. The front matter always starts with the first line. Only the first boundary line ends the front matter: later `---` lines go to the body verbatim. |
| FrontMatter.Parse | convert.py:27-51 | The same split, with the body whitespace-stripped. The result neither starts nor ends with whitespace. It is empty when no line ends the front matter. |
| FrontMatter.FirstLineNeverBoundary | convert.py:40-43 | The first line never ends the front matter, even when it is `---`, because the front matter is still empty before it. |
| Alerts.ConvertInfoMacros | convert.py:53-89 | `convert_info_macros`: the block, inline and bare passes of `str.replace` rules in turn. Its contract is stated by `Alerts.ConvertLeavesNoDelimiters`, `Alerts.ConvertIdempotent`, `Alerts.BlockParagraph`, `AlertPasses.InlineParagraph` and `AlertPasses.BlockWrapped`. |
| Alerts.OpenTagsByRenaming | convert.py:63-66 | The tip, note and warning tags are the info tag with `info` replaced by the kind's name. |
| Alerts.RuleShape | convert.py:72-87 | In every pass the rules come in pairs per kind, in the order info, tip, note, warning. The opening delimiter maps to that kind's tag. The closing delimiter maps to the one closing tag that all kinds share. |
| Alerts.NoTildeUnchanged | convert.py:72-87 | An input with no `~` comes back unchanged. |
| Alerts.NoDelimitersUnchanged | convert.py:72-87 | An input holding none of the eight delimiters `~:` `:~` `~%` `%~` `~?` `?~` `~!` `!~` comes back unchanged. |
| Alerts.ConvertLeavesNoDelimiters | convert.py:84-89 | No output holds any of the eight delimiters. |
| Alerts.ConvertIdempotent | convert.py:53-89 | Rewriting the output again changes nothing. |
| Alerts.PassPrecedence | convert.py:72-87 | A pattern that no earlier rule of its pass can match is replaced whole by its own rule. A replacement without `~` then survives every later rule. |
| Alerts.BlockParagraph | convert.py:72-75 | Each of the eight delimiter-only paragraphs (e.g. `<p>~:</p>`) becomes exactly its tag. The inline and bare passes leave that tag alone. |
| AlertPasses.InlineParagraph | convert.py:72-89 | Take a paragraph `<p>~:X:~</p>`, or the same with `%`, `?` or `!`. Suppose its text X holds no delimiter and no `<p>` or `</p>`, and does not start or end with `~`. Then it becomes that kind's opening tag, then X unchanged, then the closing tag. |
| AlertPasses.BlockPassIdle | convert.py:72-75 | No block rule matches such a paragraph, so the block pass returns it unchanged. |
| AlertPasses.InlinePass | convert.py:78-81 | The inline pass alone turns such a paragraph into opening tag, X, closing tag. The rules of other kinds find nothing, before or after. |
| AlertPasses.BlockWrapped | convert.py:72-89 | Take `<p>~:</p>` Y `<p>:~</p>`, or the same with `%`, `?` or `!`, for any Y that holds no delimiter. It becomes that kind's opening tag, then Y unchanged, then the closing tag. |
| AlertPasses.BlockPass | convert.py:72-75 | The block pass alone does that rewrite. The block rules of other kinds find nothing, before or after. |
| AlertPasses.ReplaceAtEnd | convert.py:78 | `str.replace` with a pattern that occurs only as the text's suffix replaces that suffix and keeps everything before it. |
| Alerts.RulesClear | convert.py:84-87 | Rules whose patterns are delimiters and whose replacements hold no `~` leave none of their patterns behind, whatever the input. |
| PosixPath.BaseName | convert.py:181 | The base name is the longest `/`-free suffix. Whenever it is shorter than the path, a `/` precedes it. |
| PosixPath.DirNameIsImages | convert.py:266 | `dirname` is `images` exactly when the path is `images`, one or more `/`, then a final component. |
| PosixPath.ExtIsMd | convert.py:269-270 | `splitext` reports `.md` exactly when the final component ends in `.md` and has a character other than `.` before it. |
| PosixPath.JoinBaseName | docs.py:24 | Joining a directory with a `/`-free file name yields a path whose base name is that file name. |
| Links.ResolveLink | convert.py:250-273 | `resolve_link`: heading, then attachment, then page reference, else unknown, tried in that order. Its contract is stated by `Links.ResolveLinkRules`. |
| Links.ResolveLinkRules | convert.py:263-273 | The four kinds by the link's shape. A leading `#` is a heading whatever follows. Otherwise `images`, separators and one final component is an attachment, whatever the extension. Otherwise a final `<name>.md` is a page reference. Everything else is unknown. Each clause holds in both directions. |
| Links.InAssets | convert.py:266-267 | Every `images/<name>` with a `/`-free name is an attachment. |
| Links.ByBaseName | convert.py:269-273 | Outside the assets directory, the base name alone decides between page reference and unknown. |
| Links.HeadingExamples | convert.py:263-264 | `#section` and `#images/doc.md` are headings. |
| Links.AttachmentExamples | convert.py:266-267 | `images/pic.png` and even `images/doc.md` are attachments. |
| Links.PageExamples | convert.py:269-271 | `other/doc.md` and `doc.md` are page references. |
| Links.OtherExtensionUnknown | convert.py:269-273 | `other/doc.txt` is unknown. |
| Links.NestedImagesUnknown | convert.py:266-273 | `sub/images/pic.png` is unknown, while `images/pic.png` is an attachment: only a top-level `images` directory marks an attachment. |
| Links.DotNameUnknown | convert.py:269-273 | `.md` is unknown, since a name that is only an extension has none. |
| Renderer.NewRenderer | convert.py:108-123 | Construction fails, naming `page_layout`, exactly when the argument is not a page layout. Otherwise the renderer keeps the layout and the callback, has no table of contents and has no attachments. |
| Renderer.Apply | convert.py:138-248 | Every hook keeps the layout and the title callback. `has_toc` becomes true on a header call and never goes back. Attachments only grow, by exactly the uploads of that call. |
| Renderer.ApplyStateless | convert.py:138-248 | A hook's markup never depends on the renderer's state. |
| Renderer.Header | convert.py:138-145 | `header` sets `has_toc` and changes nothing else in the renderer. Its effect over a run is stated by `Renderer.RunHasToc`. |
| Renderer.CodeLanguage | convert.py:153 | The language is never empty. A non-empty given language is used as is, and a missing or empty one becomes `text`. |
| Renderer.BlockCode | convert.py:147-153 | `block_code`: the code macro around the language and the code. Its contract is stated by `Renderer.BlockCodeRoundTrip`. |
| Renderer.BlockCodeRoundTrip | convert.py:147-153 | The code macro gives back the language and the code verbatim. |
| Renderer.CaptionSpec | convert.py:189 | The caption is one slice of the alt text. Only `*` and `_` are cut off either side, and neither end is left on one. |
| Renderer.AttachmentPathInAssets | convert.py:183-185 | An image at `/…/images<rest>` is recorded as `<rest>`, the separator after `images` included. |
| Renderer.AttachmentPathElsewhere | convert.py:183-185 | Any other local image is recorded as its path less its leading `/` characters. |
| Renderer.Image | convert.py:163-189 | An external image leaves the renderer alone. A local one appends exactly its attachment path. |
| Renderer.ImageRoundTrip | convert.py:176-189 | An external image refers to its URL verbatim and a local one to its base name. Both carry the stripped alt text as caption. |
| Renderer.Link | convert.py:191-248 | Only a local attachment link changes the renderer, by appending its target verbatim. |
| Renderer.LinkRoundTrip | convert.py:205-248 | External and unknown links are mistune's rendering and change nothing. The other kinds give back their field and the link text verbatim. For an attachment that field is the base name. For a page reference it is the escaped title the callback gives for the link target, or the link's own title (or `''`) when there is no callback. For a heading it is the link's title. |
| Renderer.AttachmentLinkRoundTrip | convert.py:212-223 | An attachment link gives back its file name and its text. |
| Renderer.PageLinkRoundTrip | convert.py:225-236 | A page link gives back its title and its text. |
| Renderer.HeadingLinkRoundTrip | convert.py:238-245 | A heading link gives back its anchor and its text. |
| Renderer.RunHasToc | convert.py:138-145 | After a run, `has_toc` holds exactly when it held before or some call was a header. |
| Renderer.RunAttachments | convert.py:183-213 | After a run, the attachments are the earlier ones followed by every call's uploads, in call order. |
| Renderer.RunOutputs | convert.py:99 | Each markup of a run is what that hook renders on its own. |
| Renderer.Drive | convert.py:97-99 | A run of calls on one renderer: the outputs, the layout kept, the final `has_toc` and the final attachments. |
| Renderer.Layout | convert.py:125-135 | `layout` renders with the renderer's own `has_toc`, treating a missing author list as empty. |
| Renderer.ConvToConf | convert.py:92-104 | The page is the default two-column layout around the rewritten content. It has a table of contents exactly when some call was a header. The attachments are every upload of the run, in order. |
| PageLayouts.RenderToc | pagelayouts.py:73-85 | `render_toc`: the `toc` macro or an empty cell. Its contract is stated by `PageLayouts.RenderTocRules`. |
| PageLayouts.RenderTocRules | pagelayouts.py:73-85 | The sidebar holds the `toc` macro, and the exclude expression that leaves out the Authors and Table of Contents headings, exactly when the page has headers. |
| PageLayouts.AuthorCellRoundTrip | pagelayouts.py:88-106 | An author's cell gives back the user key from `ri:userkey` and the designation from the span. |
| PageLayouts.RenderAuthors | pagelayouts.py:87-126 | The loop builds the table of the closed form: one cell per author in list order, one column per author, the header spanning `len(authors)` columns. |
| PageLayouts.CellPlacement | pagelayouts.py:104-106 | Author `i`'s cell sits right after the cells of the authors before it. |
| PageLayouts.ColGroupCopies | pagelayouts.py:100-107 | The column group is exactly one `<col style="width: 180px;" />` per author. |
| PageLayouts.AuthorsTableFields | pagelayouts.py:109-126 | The table holds the column group after its head, `colspan` equal to the author count, and the cells just before its tail. |
| PageLayouts.NoAuthors | pagelayouts.py:102-126 | With no authors there are no cells and no columns, and the header reads `colspan="0"`. |
| PageLayouts.RenderPage | pagelayouts.py:128-148 | `render_page`: the two-column section, sidebar cell first. Its contract is stated by `PageLayouts.RenderPagePlacement`. |
| PageLayouts.RenderPagePlacement | pagelayouts.py:128-148 | The sidebar comes first. Then come the column macro with the content width, the authors and the content, each verbatim and in that order. |
| PageLayouts.Render | pagelayouts.py:23-38 | The page is `render_page` applied to the content, the authors table and the sidebar. |
| PageLayouts.RenderOrder | pagelayouts.py:36-38 | In the rendered page the sidebar precedes the authors table, which precedes the content. |
| PageLayouts.SidebarWidthUnused | pagelayouts.py:59-71 | The sidebar width has no effect on the page. |
| Docs.DropParents | docs.py:16-17 | The result is a suffix of the input and does not begin with `..\`. |
| Docs.DropParentsSpec | docs.py:16-17 | What was removed is whole copies of `..\`. |
| Docs.NormalizePath | docs.py:11-19 | `normalize_path`. Its contract is stated by `Docs.NormalizePathSpec` and `Docs.NormalizePathIdempotent`. |
| Docs.NormalizePathSpec | docs.py:11-19 | A normalized path has no `/` and does not begin with `..\`. It is the `/`-to-`\` rewrite of the input with whole `..\` copies cut off its front. |
| Docs.NormalizePathIdempotent | docs.py:11-19 | Normalizing twice is normalizing once. |
| Docs.GetSlug | docs.py:30-34 | `__get_slug__`: directory-then-file as written, called with the arguments swapped. Its contract is stated by `Docs.SlugOfCall`. |
| Docs.SlugOfCall | docs.py:25-34 | The slug is the file name, `_`, then the directory name, each with `-` turned into `_`. It never holds `-`. |
| Docs.NewMarkdownFile | docs.py:23-28 | `MarkdownFile(...)`, with `None` where the constructor raises. Its contract is stated by `Docs.NewMarkdownFileSpec`. |
| Docs.NewMarkdownFileSpec | docs.py:23-28 | A document exists exactly when its title can be read. It is stored under the joined path, carries that title and has that slug. |
| Docs.FindFile | docs.py:45-50 | The result is the document of the first key, in insertion order, that contains the name. It is `None` when no key does. |
| Docs.AddFile | docs.py:52-54 | `add_file`. Its contract is stated by `Docs.AddFileSpec`. |
| Docs.AddFileSpec | docs.py:42-54 | Adding keeps every document under its own path and makes the directory truthy. It replaces a path's document in place, leaves every other path alone, and grows the map only for a new path. |
| Docs.LoadOne | docs.py:85-98 | One file of the inner loop: skipped unless it ends in `.md` and its title can be read. Its contract is stated by `Docs.LoadedFile`. |
| Docs.LoadedFile | docs.py:85-98 | A file yields a document exactly when it ends in `.md` and its title can be read. The document holds the joined path, the title read from there and the slug of the file and directory names. |
| Docs.LoadedItem | docs.py:83-98 | Every item of a loaded directory is stored under its document's path, and that document carries the title read from there. |
| Docs.StoredDocument | docs.py:83-98 | Whatever document a loaded directory stores under a path holds that path and the title read from it. |
| Docs.LoadFilesSound | docs.py:83-98 | Every document of a directory comes from one of its files. That file ends in `.md`, its title can be read, and the document holds the joined path, that title and the slug of the file and directory names. |
| Docs.LoadFilesComplete | docs.py:83-98 | Every `.md` file whose title can be read has a document stored under the directory path joined with its name, carrying that title. |
| Docs.LoadDirectoryFiles | docs.py:83-98 | The loop over a directory's files builds the closed-form directory. |
| Docs.ScanOne | docs.py:79-102 | A walk entry contributes a directory exactly when its name is not `images` and it holds a document. |
| Docs.ScanRepository | docs.py:74-102 | The loop over the walk builds the closed-form index. |
| Docs.ScanTree | docs.py:74-102 | `__scan_repository__` as a fold over the walk. Its contract is stated by `Docs.ScanTreeSound`, `Docs.ScanTreeComplete` and `Docs.ScanRepository`. |
| Docs.ScanTreeSound | docs.py:74-102 | Every indexed directory is stored once, under its own path, and holds a document. It is what some walk entry of that path contributed. |
| Docs.ScanTreeComplete | docs.py:74-102 | Every directory a walk entry contributes is in the index under its path. |
| Docs.NewMarkdownPages | docs.py:61-72 | The repository is refused when its path is `None`, is empty, is missing, or lacks `content`. Otherwise the index is the scan of its `content` directory. |
| Docs.GetTitle | docs.py:104-114 | `get_title`: normalize, then the first directory that finds the name. Its contract is stated by `Docs.FirstTitleSpec` and `Docs.GetTitleNeedsBackslashPaths`. |
| Docs.FirstTitleSpec | docs.py:104-114 | The title comes from the first directory whose lookup finds the name. It is `''` when none does. |
| Docs.GetTitleNeedsBackslashPaths | docs.py:104-114 | A reference holding `\` after normalization finds no title in an index whose paths hold none. |
| OrderedMaps.PutSpec | docs.py:54 | Assignment keeps keys distinct and maps the key to the value. It leaves every other key alone, keeps earlier keys in place, and grows only for a new key. |

## Left out

- **File and directory I/O.** `open`/`readlines`, `os.walk`, `os.path.exists` and
  `os.path.abspath` are left out.
  - A post arrives as its lines, each with its own line ending.
  - The walk arrives as a list of (directory path, file names).
  - `walkOf` stands for walking the absolute path of `content`.
- **`yaml.load`.** The front matter stays raw text. Reading a file's title becomes the
  parameter `titleOf`, which is `None` when the file cannot be read or parsed or has no
  `title` key. This also covers the `except` branch of the scan. The front matter's
  `author_keys` reaches `convtoconf` as an `Option` list.
- **mistune.** Its parser is left out; a document reaches the model as the sequence of hook
  calls mistune makes, plus a function `assemble` that joins their outputs. Its default
  `header` and `link` renderers and `escape(…, quote=True)` are opaque functions of the
  `Env` record.
- **`urlparse(src).netloc`.** The test "has a network authority" (section 3.2 of RFC 3986)
  is an input predicate of `Env`.
- **Exceptions and logging.** The message text of `InvalidArgumentException` and the logging
  calls are left out. A failed assertion in `MarkdownPages.__init__` is a `Failure` value.
  The `NameError` raised at docs.py:68-70 is the failure `DocsRootMissing`.
- Docs.NewMarkdownFile: a front matter whose `title` key is present but null, or not a
  string, is not modelled. Python keeps such a file, since docs.py:28 reads the key without
  raising, and `get_title` then returns that value (`None`, say) at docs.py:111. Here
  `titleOf` yields a string or nothing, so the model can only keep the file with a string
  title or drop it.
- Strings.ReplaceAll: `str.replace` with an empty pattern is not modelled. Every pattern in
  the source is non-empty.
- AlertPasses.InlineParagraph: the text between the delimiters must not start or end with `~`
  and must hold no `<p>` or `</p>`. Text that does can put another delimiter or paragraph
  tag next to the paragraph's own, and that case is not covered.
- **Image `title`.** The image `title` argument is accepted and unused, as in the source.
- **Page layout.** The only page layout is `LeftSidebarPage`; the abstract base class is its
  datatype. `sidebar_width` is stored and never read (`PageLayouts.SidebarWidthUnused`).
- **Title callback.** The callback is `Option<string -> string>`. A callable that returns
  `None` is not modelled.
- Docs.ScanTreeComplete: it assumes the walk lists each directory path once, as `os.walk`
  does; nothing else in the model enforces that.
- **`SplitFields`.** This is a reader used only to state round trips. It returns `None` for
  an empty middle part and is not part of the source.
- **Integers.** Header levels and author counts are unbounded integers, and no arithmetic
  on them can overflow in the source.
