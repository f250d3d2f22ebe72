/** Classification of an internal link target (`Link` and
    `ConfluenceRenderer.resolve_link`). */
module Links {
  import opened Strings
  import opened PosixPath

  /** The `Link` enumeration: what an internal link points at. */
  datatype LinkKind = Unknown | Heading | Attachment | MdPageReference

  /** Name of the directory whose files are uploaded as page attachments. */
  const AssetsDir: string := "images"

  /** Extension of a cross-referenced documentation page. */
  const MarkdownExt: string := ".md"

  /** Four ordered rules: a fragment, then a file directly inside the assets
      directory, then a Markdown page, else unknown. */
  function ResolveLink(link: string): LinkKind {
    if StartsWith(link, "#") then Heading
    else if DirName(link) == AssetsDir then Attachment
    else if Ext(link) == MarkdownExt then MdPageReference
    else Unknown
  }

  /** The classification in terms of the link's shape: a leading `#` wins
      whatever follows; otherwise `images`, separators and one final component
      is an attachment whatever its extension; otherwise a final component
      `<name>.md` (with `<name>` not only dots) is a page reference. */
  lemma ResolveLinkRules(link: string)
    ensures ResolveLink(link) == Heading <==> |link| > 0 && link[0] == '#'
    ensures ResolveLink(link) == Attachment <==>
      (|link| == 0 || link[0] != '#') &&
      |BaseName(link)| + 7 <= |link| && StartsWith(link, "images/") &&
      AllChar(link[6..|link| - |BaseName(link)|], '/')
    ensures ResolveLink(link) == MdPageReference <==>
      (|link| == 0 || link[0] != '#') && DirName(link) != AssetsDir &&
      IsMdName(BaseName(link))
    ensures ResolveLink(link) == Unknown <==>
      (|link| == 0 || link[0] != '#') && DirName(link) != AssetsDir &&
      !IsMdName(BaseName(link))
  {
    assert StartsWith(link, "#") <==> |link| > 0 && link[0] == '#' by {
      if |link| > 0 {
        assert link[..1] == [link[0]];
      }
    }
    DirNameIsImages(link);
    ExtIsMd(link);
  }

  /** The heading rule beats the others, whatever follows the `#`. */
  lemma HeadingExamples()
    ensures ResolveLink("#section") == Heading
    ensures ResolveLink("#images/doc.md") == Heading
  {
    ResolveLinkRules("#section");
    ResolveLinkRules("#images/doc.md");
  }

  /** A link outside a top-level `images` directory whose last component is
      known is a page reference or unknown by that component alone. */
  lemma ByBaseName(link: string, base: string)
    requires |link| > 0 && link[0] != '#' && !StartsWith(link, "images/")
    requires BaseName(link) == base
    ensures ResolveLink(link) == (if IsMdName(base) then MdPageReference else Unknown)
  {
    ResolveLinkRules(link);
  }

  /** A link `images/<base>` is an attachment. */
  lemma InAssets(link: string, base: string)
    requires link == "images/" + base && '/' !in base
    ensures ResolveLink(link) == Attachment
  {
    BaseNameOf(link, base);
    assert link[0] == 'i';
    assert link[..7] == "images/";
    assert link[6..|link| - |base|] == "/";
    ResolveLinkRules(link);
  }

  /** A link whose last component is `base` and whose first character is
      neither `#` nor `i` (so it is not under `images/`) is classified by
      `base` alone. */
  lemma OutsideAssets(link: string, base: string)
    requires |link| > 0 && link[0] != '#' && link[0] != 'i'
    requires EndsWith(link, base) && '/' !in base
    requires |base| == |link| || link[|link| - |base| - 1] == '/'
    ensures ResolveLink(link) == (if IsMdName(base) then MdPageReference else Unknown)
  {
    BaseNameOf(link, base);
    ByBaseName(link, base);
  }

  /** A file directly inside `images` is an attachment, even a `.md` one. */
  lemma AttachmentExamples()
    ensures ResolveLink("images/pic.png") == Attachment
    ensures ResolveLink("images/doc.md") == Attachment
  {
    InAssets("images/pic.png", "pic.png");
    InAssets("images/doc.md", "doc.md");
  }

  /** A `.md` file anywhere else is a page reference. */
  lemma PageExamples()
    ensures ResolveLink("other/doc.md") == MdPageReference
    ensures ResolveLink("doc.md") == MdPageReference
  {
    var b := "doc.md";
    assert IsMdName(b) by {
      assert b[..3] == "doc";
      assert b[0] != '.';
    }
    OutsideAssets("other/doc.md", b);
    OutsideAssets(b, b);
  }

  /** An extension other than `.md` is unknown. */
  lemma OtherExtensionUnknown()
    ensures ResolveLink("other/doc.txt") == Unknown
  {
    var b := "doc.txt";
    assert !IsMdName(b) by { assert b[4..] != ".md"; }
    OutsideAssets("other/doc.txt", b);
  }

  /** Only a top-level `images` directory marks an attachment: the same file
      one directory deeper is unknown. */
  lemma NestedImagesUnknown()
    ensures ResolveLink("sub/images/pic.png") == Unknown
    ensures ResolveLink("images/pic.png") == Attachment
  {
    InAssets("images/pic.png", "pic.png");
    var b := "pic.png";
    assert !IsMdName(b) by { assert b[4..] != ".md"; }
    OutsideAssets("sub/images/pic.png", b);
  }

  /** A name that is only an extension has none, so it is not a page. */
  lemma DotNameUnknown()
    ensures ResolveLink(".md") == Unknown
  {
    assert !IsMdName(".md") by { assert ".md"[..0] == ""; }
    OutsideAssets(".md", ".md");
  }
}
