/** The line machine of `parse`: it routes the lines of a post either to the
    YAML front matter or to the Markdown body. Reading the file and loading
    the YAML are not part of this model; the post arrives as its lines (each
    with its own line ending) and the front matter leaves as raw text. */
module FrontMatter {
  import opened Strings

  const YamlBoundary: string := "---"

  /** Line `i` would end the front matter: it strips to the boundary marker
      and the front matter collected before it is non-empty. */
  predicate IsBoundary(lines: seq<string>, i: int) {
    0 <= i < |lines| && Strip(lines[i]) == YamlBoundary && Concat(lines[..i]) != ""
  }

  /** Line `i` is the first line that ends the front matter. */
  predicate FirstBoundary(lines: seq<string>, i: int) {
    IsBoundary(lines, i) && forall j :: 0 <= j < i ==> !IsBoundary(lines, j)
  }

  /** The loop of `parse`: while in front-matter mode every line is appended
      to the front matter, except a boundary line once the front matter is
      non-empty, which is dropped and switches to body mode for good. */
  method RouteLines(lines: seq<string>) returns (rawYaml: string, body: string)
    ensures forall i :: FirstBoundary(lines, i) ==>
      rawYaml == Concat(lines[..i]) && body == Concat(lines[i + 1..])
    ensures forall i :: FirstBoundary(lines, i) ==>
      rawYaml + lines[i] + body == Concat(lines)
    ensures (forall i :: !IsBoundary(lines, i)) ==>
      rawYaml == Concat(lines) && body == ""
    ensures |lines| > 0 ==> StartsWith(rawYaml, lines[0])
  {
    rawYaml := "";
    body := "";
    var inYaml := true;
    ghost var boundary := -1;
    var k := 0;
    while k < |lines|
      invariant 0 <= k <= |lines|
      invariant inYaml ==> boundary == -1 && rawYaml == Concat(lines[..k]) && body == ""
      invariant inYaml ==> forall j :: 0 <= j < k ==> !IsBoundary(lines, j)
      invariant !inYaml ==> 0 <= boundary < k && FirstBoundary(lines, boundary)
      invariant !inYaml ==> rawYaml == Concat(lines[..boundary])
      invariant !inYaml ==> body == Concat(lines[boundary + 1..k])
    {
      var line := lines[k];
      assert lines[..k + 1][..k] == lines[..k];
      if Strip(line) == YamlBoundary && inYaml && rawYaml != "" {
        inYaml := false;
        boundary := k;
        assert lines[boundary + 1..k + 1] == [];
      } else if inYaml {
        rawYaml := rawYaml + line;
      } else {
        assert lines[boundary + 1..k + 1][..k - boundary - 1] == lines[boundary + 1..k];
        body := body + line;
      }
      k := k + 1;
    }
    assert lines[..|lines|] == lines;
    RoutedLines(lines, rawYaml, body, inYaml, boundary);
  }

  /** What the loop of `RouteLines` leaves, read back as the split of the
      post at its first boundary line, or as the whole post when there is
      none. */
  lemma RoutedLines(lines: seq<string>, rawYaml: string, body: string, inYaml: bool, boundary: int)
    requires inYaml ==> rawYaml == Concat(lines) && body == ""
    requires inYaml ==> forall j :: 0 <= j < |lines| ==> !IsBoundary(lines, j)
    requires !inYaml ==> FirstBoundary(lines, boundary)
    requires !inYaml ==> rawYaml == Concat(lines[..boundary]) && body == Concat(lines[boundary + 1..])
    ensures forall i :: FirstBoundary(lines, i) ==>
      rawYaml == Concat(lines[..i]) && body == Concat(lines[i + 1..])
    ensures forall i :: FirstBoundary(lines, i) ==>
      rawYaml + lines[i] + body == Concat(lines)
    ensures (forall i :: !IsBoundary(lines, i)) ==>
      rawYaml == Concat(lines) && body == ""
    ensures |lines| > 0 ==> StartsWith(rawYaml, lines[0])
  {
    if !inYaml {
      FirstBoundaryUnique(lines, boundary);
      ConcatAt(lines, boundary);
    } else {
      assert forall i :: !IsBoundary(lines, i);
    }
    if |lines| > 0 {
      FirstLineKept(lines, rawYaml, inYaml, boundary);
    }
  }

  /** The text of the lines is the text before line `i`, line `i`, and the
      text after it. */
  lemma ConcatAt(lines: seq<string>, i: nat)
    requires i < |lines|
    ensures Concat(lines[..i]) + lines[i] + Concat(lines[i + 1..]) == Concat(lines)
  {
    var front, rest := lines[..i + 1], lines[i + 1..];
    assert front + rest == lines;
    ConcatAppend(front, rest);
    assert front[..|front| - 1] == lines[..i];
    assert Concat(front) == Concat(lines[..i]) + lines[i];
  }

  /** `parse` without the file read and the YAML load: the raw front matter
      and the whitespace-stripped body. */
  method Parse(lines: seq<string>) returns (rawYaml: string, markdown: string)
    ensures forall i :: FirstBoundary(lines, i) ==>
      rawYaml == Concat(lines[..i]) && markdown == Strip(Concat(lines[i + 1..]))
    ensures (forall i :: !IsBoundary(lines, i)) ==> rawYaml == Concat(lines) && markdown == ""
    ensures |markdown| == 0 || (!IsSpace(markdown[0]) && !IsSpace(markdown[|markdown| - 1]))
  {
    var body;
    rawYaml, body := RouteLines(lines);
    markdown := Strip(body);
    StripBySpec(body, IsSpace);
  }

  lemma FirstBoundaryUnique(lines: seq<string>, b: int)
    requires FirstBoundary(lines, b)
    ensures forall i :: FirstBoundary(lines, i) ==> i == b
  {
  }

  /** The first line always starts the front matter, even when it is itself
      a boundary marker, since the front matter is empty before it. */
  lemma FirstLineNeverBoundary(lines: seq<string>)
    ensures !IsBoundary(lines, 0)
  {
    assert lines[..0] == [];
  }

  lemma FirstLineKept(lines: seq<string>, rawYaml: string, inYaml: bool, boundary: int)
    requires |lines| > 0
    requires inYaml ==> rawYaml == Concat(lines)
    requires !inYaml ==> IsBoundary(lines, boundary) && rawYaml == Concat(lines[..boundary])
    ensures StartsWith(rawYaml, lines[0])
  {
    FirstLineNeverBoundary(lines);
    var n := if inYaml then |lines| else boundary;
    assert 1 <= n <= |lines|;
    assert rawYaml == Concat(lines[..n]) by {
      if inYaml {
        assert lines[..|lines|] == lines;
      }
    }
    ConcatAppend([lines[0]], lines[1..n]);
    assert [lines[0]] + lines[1..n] == lines[..n];
    assert Concat([lines[0]]) == lines[0] by {
      assert [lines[0]][..0] == [];
    }
  }
}
