/** The three `posixpath` helpers the converter and the scanner use, with the
    semantics of Python's `posixpath` module ('/' is the only separator). */
module PosixPath {
  import opened Strings

  /** `posixpath.basename(p)`: the longest suffix of `p` free of '/'. */
  function BaseName(p: string): (r: string)
    ensures '/' !in r
    ensures EndsWith(p, r)
    ensures |r| < |p| ==> p[|p| - |r| - 1] == '/'
  {
    var i := RFind(p, '/') + 1;
    assert forall c :: c in p[i..] ==> c != '/';
    p[i..]
  }

  /** `posixpath.dirname(p)`: the head before the last run of separators,
      with those separators removed unless the head is made of nothing else. */
  function DirName(p: string): (r: string)
    ensures StartsWith(p, r) && |r| + |BaseName(p)| <= |p|
    ensures AllChar(p[|r|..|p| - |BaseName(p)|], '/')
    ensures |r| == 0 || r[|r| - 1] != '/' || |r| + |BaseName(p)| == |p|
    ensures |r| + |BaseName(p)| == |p| ==> AllChar(r, '/')
  {
    var i := RFind(p, '/') + 1;
    var head := p[..i];
    if |head| > 0 && !AllChar(head, '/') then
      var r := RStrip(head, c => c == '/');
      RStripSpec(head, c => c == '/');
      assert p[|r|..i] == head[|r|..];
      r
    else
      head
  }

  /** The extension `posixpath.splitext(p)` reports: from the last '.' of the
      final component, provided that component has some other character
      before that dot; otherwise empty. */
  function Ext(p: string): string
  {
    var sep := RFind(p, '/');
    var dot := RFind(p, '.');
    if dot > sep && !AllChar(p[sep + 1..dot], '.') then
      p[dot..]
    else
      ""
  }

  /** `posixpath.join(a, b)` for two components. */
  function Join(a: string, b: string): (r: string)
    ensures EndsWith(r, b)
    ensures !StartsWith(b, "/") ==> StartsWith(r, a)
  {
    if StartsWith(b, "/") then b
    else if |a| == 0 || EndsWith(a, "/") then a + b
    else a + "/" + b
  }

  /** The directory of a path is `images` exactly when the path is `images`,
      one or more separators, and a final component. */
  lemma DirNameIsImages(p: string)
    ensures DirName(p) == "images" <==>
      |BaseName(p)| + 7 <= |p| && StartsWith(p, "images/") &&
      AllChar(p[6..|p| - |BaseName(p)|], '/')
  {
    var r := DirName(p);
    var b := BaseName(p);
    if r == "images" {
      assert r[0] != '/';
      assert |r| + |b| < |p|;
      assert p[6] == p[|r|..|p| - |b|][0];
      assert p[..7] == r + "/";
    }
    if |b| + 7 <= |p| && StartsWith(p, "images/") && AllChar(p[6..|p| - |b|], '/') {
      assert p[5] == 's';
      assert forall j :: 6 <= j < |p| - |b| ==> p[j] == p[6..|p| - |b|][j - 6];
      assert forall j :: |r| <= j < |p| - |b| ==> p[j] == p[|r|..|p| - |b|][j - |r|];
      assert |r| == 6;
      assert r == p[..6];
    }
  }

  /** The extension is exactly `.md` when the final component ends in `.md`
      and has a character other than '.' before it. */
  lemma ExtIsMd(p: string)
    ensures Ext(p) == ".md" <==> IsMdName(BaseName(p))
  {
    if Ext(p) == ".md" {
      ExtMdName(p);
    }
    if IsMdName(BaseName(p)) {
      MdNameExt(p);
    }
  }

  /** A final component of the form `<name>.md` whose `<name>` is not only dots. */
  predicate IsMdName(b: string) {
    EndsWith(b, ".md") && !AllChar(b[..|b| - 3], '.')
  }

  lemma ExtMdName(p: string)
    requires Ext(p) == ".md"
    ensures IsMdName(BaseName(p))
  {
    var sep := RFind(p, '/');
    var dot := RFind(p, '.');
    var b := p[sep + 1..];
    assert dot > sep && !AllChar(p[sep + 1..dot], '.');
    assert p[dot..] == ".md";
    assert |p| == dot + 3;
    assert BaseName(p) == b;
    assert b[..|b| - 3] == p[sep + 1..dot];
    assert b[|b| - 3..] == p[dot..];
  }

  lemma MdNameExt(p: string)
    requires IsMdName(BaseName(p))
    ensures Ext(p) == ".md"
  {
    var b := BaseName(p);
    var sep := RFind(p, '/');
    var dot := RFind(p, '.');
    assert b == p[sep + 1..];
    assert p[|p| - 3..] == b[|b| - 3..] == ".md";
    assert p[|p| - 3] == '.' && p[|p| - 2] == 'm' && p[|p| - 1] == 'd';
    assert dot == |p| - 3;
    assert b[..|b| - 3] == p[sep + 1..dot];
  }

  /** A separator-free suffix preceded by a separator, or making up the whole
      path, is the final component. */
  lemma BaseNameOf(p: string, b: string)
    requires EndsWith(p, b) && '/' !in b
    requires |b| == |p| || p[|p| - |b| - 1] == '/'
    ensures BaseName(p) == b
  {
    assert forall j :: |p| - |b| <= j < |p| ==> p[j] == b[j - (|p| - |b|)];
    assert RFind(p, '/') == |p| - |b| - 1;
  }

  /** Joining a directory and a separator-free file name yields a path whose
      final component is that file name. */
  lemma JoinBaseName(a: string, b: string)
    requires '/' !in b && |b| > 0
    ensures BaseName(Join(a, b)) == b
  {
    var r := Join(a, b);
    assert b[0] != '/';
    assert r[|r| - |b|..] == b;
    BaseNameOf(r, b);
  }
}
