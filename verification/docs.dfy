/** `docs.py`: the index of a repository's Markdown documents that supplies
    page titles for cross-references. The file system reaches the model as
    data: the directory walk as a list of entries, and the title each file's
    front matter declares as a function (`None` when reading or parsing the
    file fails or it declares no title). */
module Docs {
  import opened Wrappers
  import opened Strings
  import opened PosixPath
  import opened Links
  import opened OrderedMaps

  /** The sub-directory of a repository that holds its documents. */
  const DocsRoot: string := "content"

  /** The parent-directory prefix `normalize_path` removes. */
  const ParentPrefix: string := "..\\"

  // ---------------------------------------------------------------------
  // normalize_path

  /** Removes every leading `..\` in turn. */
  function DropParents(p: string): (r: string)
    ensures EndsWith(p, r) && !StartsWith(r, ParentPrefix)
    decreases |p|
  {
    if StartsWith(p, ParentPrefix) then DropParents(p[|ParentPrefix|..]) else p
  }

  /** `normalize_path`: every '/' becomes '\', then the leading `..\`
      sequences are removed. */
  function NormalizePath(filePath: string): string {
    DropParents(ReplaceAll(filePath, "/", "\\"))
  }

  /** What `DropParents` cut off is whole copies of `..\` and nothing else. */
  lemma {:induction false} DropParentsSpec(p: string)
    ensures var r := DropParents(p);
      (|p| - |r|) % 3 == 0 &&
      forall j :: 0 <= j < (|p| - |r|) / 3 ==> OccursAt(p, ParentPrefix, 3 * j)
    decreases |p|
  {
    if StartsWith(p, ParentPrefix) {
      var q := p[3..];
      DropParentsSpec(q);
      var r := DropParents(p);
      assert DropParents(q) == r;
      forall j | 0 <= j < (|p| - |r|) / 3
        ensures OccursAt(p, ParentPrefix, 3 * j)
      {
        if j == 0 {
          assert p[..3] == ParentPrefix;
        } else {
          PrefixShift(p, 3 * (j - 1));
        }
      }
    }
  }

  /** A copy of `..\` after the first three characters is one in the whole. */
  lemma PrefixShift(p: string, i: nat)
    requires |p| >= 3 && OccursAt(p[3..], ParentPrefix, i)
    ensures OccursAt(p, ParentPrefix, i + 3)
  {
    assert p[i + 3..i + 6] == p[3..][i..i + 3];
  }

  /** A normalized path has no '/', does not begin with `..\`, and is what
      remains of the input, '/' turned into '\', after whole `..\` copies
      are cut off its front. */
  lemma NormalizePathSpec(filePath: string)
    ensures var r := NormalizePath(filePath);
      var s := ReplaceAll(filePath, "/", "\\");
      && '/' !in r && !StartsWith(r, ParentPrefix) && EndsWith(s, r)
      && (|s| - |r|) % 3 == 0
      && (forall j :: 0 <= j < (|s| - |r|) / 3 ==> OccursAt(s, ParentPrefix, 3 * j))
  {
    var s := ReplaceAll(filePath, "/", "\\");
    DropParentsSpec(s);
    NoCharInSuffix(s, DropParents(s), '/');
  }

  lemma NoCharInSuffix(s: string, r: string, c: char)
    requires c !in s && EndsWith(s, r)
    ensures c !in r
  {
    forall i | 0 <= i < |r|
      ensures r[i] != c
    {
      assert r[i] == s[|s| - |r| + i];
    }
  }

  /** Normalizing twice is normalizing once. */
  lemma NormalizePathIdempotent(filePath: string)
    ensures NormalizePath(NormalizePath(filePath)) == NormalizePath(filePath)
  {
    var r := NormalizePath(filePath);
    NormalizePathSpec(filePath);
    if Contains(r, "/") {
      ContainsChar(r, "/", '/');
    }
  }

  // ---------------------------------------------------------------------
  // MarkdownFile

  /** `s.replace('-', '_')` */
  function Underscored(s: string): string {
    ReplaceAll(s, "-", "_")
  }

  /** `__get_slug__(file_name, parent_dir)`: `parent_dir`, '_', `file_name`,
      with '-' turned into '_'. */
  function GetSlug(fileName: string, parentDir: string): string {
    Underscored(parentDir + "_" + fileName)
  }

  /** `__init__` passes the directory name as `file_name` and the file name
      as `parent_dir`, so a slug is the file name, extension included, then
      '_' and the directory name, and it never holds '-'. */
  lemma SlugOfCall(dirName: string, fileName: string)
    ensures GetSlug(dirName, fileName) == Underscored(fileName) + "_" + Underscored(dirName)
    ensures '-' !in GetSlug(dirName, fileName)
  {
    ReplaceConcat(fileName + "_", dirName, "-", "_");
    ReplaceConcat(fileName, "_", "-", "_");
    assert ReplaceAll("_", "-", "_") == "_";
  }

  /** One document: its path, its slug and the title its front matter declares. */
  datatype MarkdownFile = MarkdownFile(path: string, slug: string, title: string)

  /** `MarkdownFile(file_name, dir_name, abs_path)`: `None` where the
      constructor raises, which is when the title cannot be read. */
  function NewMarkdownFile(fileName: string, dirName: string, absPath: string,
                           titleOf: string -> Option<string>): Option<MarkdownFile>
  {
    var path := Join(absPath, fileName);
    match titleOf(path)
    case Some(t) => Some(MarkdownFile(path, GetSlug(dirName, fileName), t))
    case None => None
  }

  /** A document exists exactly when its title can be read; it is stored
      under the directory path joined with the file name, which it ends
      with, carries that title, and has the slug of `SlugOfCall`. */
  lemma NewMarkdownFileSpec(fileName: string, dirName: string, absPath: string,
                            titleOf: string -> Option<string>)
    ensures var f := NewMarkdownFile(fileName, dirName, absPath, titleOf);
      && (f.Some? <==> titleOf(Join(absPath, fileName)).Some?)
      && (f.Some? ==>
            && f.value.path == Join(absPath, fileName)
            && EndsWith(f.value.path, fileName)
            && Some(f.value.title) == titleOf(f.value.path)
            && f.value.slug == Underscored(fileName) + "_" + Underscored(dirName))
  {
    SlugOfCall(dirName, fileName);
  }

  // ---------------------------------------------------------------------
  // Directory

  /** A directory's documents, keyed by path in the order they were added. */
  datatype Directory = Directory(path: string, mdFiles: Dict<string, MarkdownFile>)

  /** Every document is stored once, under its own path. */
  predicate ValidDirectory(d: Directory) {
    DistinctKeys(d.mdFiles) &&
    forall i :: 0 <= i < |d.mdFiles| ==> d.mdFiles[i].0 == d.mdFiles[i].1.path
  }

  /** `bool(directory)`: it holds at least one document. */
  predicate Truthy(d: Directory) {
    |d.mdFiles| > 0
  }

  /** The first position whose key contains `name`, or -1. */
  function FirstContaining(items: Dict<string, MarkdownFile>, name: string): (i: int)
    ensures -1 <= i < |items|
    ensures i >= 0 ==> Contains(items[i].0, name) &&
                       forall j :: 0 <= j < i ==> !Contains(items[j].0, name)
    ensures i < 0 ==> forall j :: 0 <= j < |items| ==> !Contains(items[j].0, name)
    decreases |items|
  {
    if |items| == 0 then -1
    else if Contains(items[0].0, name) then 0
    else
      var i := FirstContaining(items[1..], name);
      if i < 0 then -1 else i + 1
  }

  /** `find_file`: the first document, in insertion order, whose path
      contains `file_name` anywhere. */
  function FindFile(d: Directory, fileName: string): (r: Option<MarkdownFile>)
    ensures r.None? <==> forall j :: 0 <= j < |d.mdFiles| ==> !Contains(d.mdFiles[j].0, fileName)
    ensures r.Some? ==>
      exists i :: && 0 <= i < |d.mdFiles| && r.value == d.mdFiles[i].1
                  && Contains(d.mdFiles[i].0, fileName)
                  && forall j :: 0 <= j < i ==> !Contains(d.mdFiles[j].0, fileName)
  {
    var i := FirstContaining(d.mdFiles, fileName);
    if i < 0 then None else Some(d.mdFiles[i].1)
  }

  /** `add_file`: stores the document under its path, replacing the one
      stored there before. */
  function AddFile(d: Directory, f: MarkdownFile): Directory {
    d.(mdFiles := Put(d.mdFiles, f.path, f))
  }

  /** Adding keeps a directory valid and truthy-after, stores the document
      under its path, leaves every other path's document alone, and adds a
      new entry only for a new path. */
  lemma AddFileSpec(d: Directory, f: MarkdownFile)
    requires ValidDirectory(d)
    ensures var d' := AddFile(d, f);
      ValidDirectory(d') && Truthy(d') && d'.path == d.path &&
      Get(d'.mdFiles, f.path) == Some(f) &&
      (forall p :: p != f.path ==> Get(d'.mdFiles, p) == Get(d.mdFiles, p)) &&
      |d'.mdFiles| == (if Get(d.mdFiles, f.path).None? then |d.mdFiles| + 1 else |d.mdFiles|)
  {
    PutSpec(d.mdFiles, f.path, f);
    var items := Put(d.mdFiles, f.path, f);
    forall i | 0 <= i < |items|
      ensures items[i].0 == items[i].1.path
    {
      PutItem(d.mdFiles, f.path, f, i);
    }
  }

  // ---------------------------------------------------------------------
  // Scanning the repository

  /** What one file of a directory contributes: nothing unless it is a
      Markdown file whose title can be read. */
  function LoadOne(dirPath: string, dirName: string, file: string,
                   titleOf: string -> Option<string>): Option<MarkdownFile>
  {
    if Ext(file) != MarkdownExt then None
    else NewMarkdownFile(file, dirName, dirPath, titleOf)
  }

  /** `LoadOne` for the files of one directory. */
  function LoadOneIn(dirPath: string, dirName: string, titleOf: string -> Option<string>)
    : string -> Option<MarkdownFile>
  {
    file => LoadOne(dirPath, dirName, file, titleOf)
  }

  function PathOf(f: MarkdownFile): string {
    f.path
  }

  /** The inner loop of `__scan_repository__`: non-Markdown files are
      skipped, and so are files whose title cannot be read; the rest are
      added in turn. */
  function LoadFiles(dirPath: string, dirName: string, files: seq<string>,
                     titleOf: string -> Option<string>): Directory
  {
    Directory(dirPath, AddAll([], files, LoadOneIn(dirPath, dirName, titleOf), PathOf))
  }

  /** A loaded directory stores every document once, under its own path. */
  lemma LoadFilesValid(dirPath: string, dirName: string, files: seq<string>,
                       titleOf: string -> Option<string>)
    ensures ValidDirectory(LoadFiles(dirPath, dirName, files, titleOf))
  {
    AddAllSound(files, LoadOneIn(dirPath, dirName, titleOf), PathOf);
  }

  /** Every document of a loaded directory comes from one of its files: a
      Markdown file whose title could be read, stored under the directory
      path joined with the file name, with the title read from there and
      the slug made of the file and directory names. */
  lemma LoadFilesSound(dirPath: string, dirName: string, files: seq<string>,
                       titleOf: string -> Option<string>)
    ensures var d := LoadFiles(dirPath, dirName, files, titleOf);
      forall i :: 0 <= i < |d.mdFiles| ==>
        exists j :: && 0 <= j < |files| && Ext(files[j]) == MarkdownExt
                    && d.mdFiles[i].1.path == Join(dirPath, files[j])
                    && titleOf(Join(dirPath, files[j])) == Some(d.mdFiles[i].1.title)
                    && d.mdFiles[i].1.slug == Underscored(files[j]) + "_" + Underscored(dirName)
  {
    var one := LoadOneIn(dirPath, dirName, titleOf);
    var items := AddAll([], files, one, PathOf);
    AddAllSound(files, one, PathOf);
    forall i | 0 <= i < |items|
      ensures exists j :: && 0 <= j < |files| && Ext(files[j]) == MarkdownExt
                          && items[i].1.path == Join(dirPath, files[j])
                          && titleOf(Join(dirPath, files[j])) == Some(items[i].1.title)
                          && items[i].1.slug == Underscored(files[j]) + "_" + Underscored(dirName)
    {
      var j :| 0 <= j < |files| && one(files[j]) == Some(items[i].1);
      assert one(files[j]) == LoadOne(dirPath, dirName, files[j], titleOf);
      LoadedFile(dirPath, dirName, files[j], titleOf);
    }
    assert LoadFiles(dirPath, dirName, files, titleOf).mdFiles == items;
  }

  /** A file yields a document exactly when it is a Markdown file whose
      title can be read, and that document has the joined path, the title
      read from there, and the slug of the file and directory names. */
  lemma LoadedFile(dirPath: string, dirName: string, file: string,
                   titleOf: string -> Option<string>)
    ensures var m := LoadOne(dirPath, dirName, file, titleOf);
      && (m.Some? <==> Ext(file) == MarkdownExt && titleOf(Join(dirPath, file)).Some?)
      && (m.Some? ==>
            && m.value.path == Join(dirPath, file)
            && titleOf(Join(dirPath, file)) == Some(m.value.title)
            && m.value.slug == Underscored(file) + "_" + Underscored(dirName))
  {
    NewMarkdownFileSpec(file, dirName, dirPath, titleOf);
  }

  /** Every Markdown file whose title can be read has a document stored
      under the directory path joined with its name, and that document
      carries the title read from there. */
  lemma LoadFilesComplete(dirPath: string, dirName: string, files: seq<string>,
                          titleOf: string -> Option<string>)
    ensures var d := LoadFiles(dirPath, dirName, files, titleOf);
      forall j :: 0 <= j < |files| && Ext(files[j]) == MarkdownExt &&
                  titleOf(Join(dirPath, files[j])).Some? ==>
        var m := Get(d.mdFiles, Join(dirPath, files[j]));
        m.Some? && m.value.path == Join(dirPath, files[j]) &&
        Some(m.value.title) == titleOf(Join(dirPath, files[j]))
  {
    var one := LoadOneIn(dirPath, dirName, titleOf);
    AddAllComplete(files, one, PathOf);
    forall j | 0 <= j < |files| && Ext(files[j]) == MarkdownExt && titleOf(Join(dirPath, files[j])).Some?
      ensures var m := Get(LoadFiles(dirPath, dirName, files, titleOf).mdFiles, Join(dirPath, files[j]));
        m.Some? && m.value.path == Join(dirPath, files[j]) &&
        Some(m.value.title) == titleOf(Join(dirPath, files[j]))
    {
      LoadedFile(dirPath, dirName, files[j], titleOf);
      assert PathOf(one(files[j]).value) == Join(dirPath, files[j]);
      StoredDocument(dirPath, dirName, files, titleOf, Join(dirPath, files[j]));
    }
  }

  /** The document a loaded directory stores under a path has that path and
      the title read from it. */
  lemma StoredDocument(dirPath: string, dirName: string, files: seq<string>,
                       titleOf: string -> Option<string>, p: string)
    ensures var m := Get(LoadFiles(dirPath, dirName, files, titleOf).mdFiles, p);
      m.Some? ==> m.value.path == p && Some(m.value.title) == titleOf(p)
  {
    var items := LoadFiles(dirPath, dirName, files, titleOf).mdFiles;
    var i := IndexOf(items, p);
    if i >= 0 {
      LoadedItem(dirPath, dirName, files, titleOf, i);
    }
  }

  /** Item `i` of a loaded directory is stored under its document's path,
      and that document carries the title read from there. */
  lemma LoadedItem(dirPath: string, dirName: string, files: seq<string>,
                   titleOf: string -> Option<string>, i: int)
    ensures var items := LoadFiles(dirPath, dirName, files, titleOf).mdFiles;
      0 <= i < |items| ==>
        items[i].0 == items[i].1.path && titleOf(items[i].1.path) == Some(items[i].1.title)
  {
    var one := LoadOneIn(dirPath, dirName, titleOf);
    var items := AddAll([], files, one, PathOf);
    if 0 <= i < |items| {
      AddAllSound(files, one, PathOf);
      var k :| 0 <= k < |files| && one(files[k]) == Some(items[i].1);
      LoadedFile(dirPath, dirName, files[k], titleOf);
    }
  }

  /** One directory of `os.walk`: its path and the names of its files. */
  datatype WalkEntry = WalkEntry(dirPath: string, files: seq<string>)

  /** The scanned index: one directory per path, in scan order. */
  type DocsTree = Dict<string, Directory>

  /** A directory as the scan builds it, named by the final component of its path. */
  function LoadDirectory(e: WalkEntry, titleOf: string -> Option<string>): (d: Directory)
    ensures d.path == e.dirPath
  {
    LoadFiles(e.dirPath, BaseName(e.dirPath), e.files, titleOf)
  }

  /** What one walk entry contributes to the index: nothing for a directory
      named `images` or one without documents. */
  function ScanOne(e: WalkEntry, titleOf: string -> Option<string>): (r: Option<Directory>)
    ensures r.Some? <==> BaseName(e.dirPath) != AssetsDir && Truthy(LoadDirectory(e, titleOf))
    ensures r.Some? ==> r.value == LoadDirectory(e, titleOf) && r.value.path == e.dirPath
  {
    if BaseName(e.dirPath) == AssetsDir then None
    else
      var d := LoadDirectory(e, titleOf);
      if Truthy(d) then Some(d) else None
  }

  /** `ScanOne` with the title source fixed. */
  function ScanOneWith(titleOf: string -> Option<string>): WalkEntry -> Option<Directory> {
    e => ScanOne(e, titleOf)
  }

  function DirPathOf(d: Directory): string {
    d.path
  }

  /** The outer loop of `__scan_repository__`: each contributed directory is
      stored under its path. */
  function ScanTree(walk: seq<WalkEntry>, titleOf: string -> Option<string>): DocsTree {
    AddAll([], walk, ScanOneWith(titleOf), DirPathOf)
  }

  /** The inner loop of `__scan_repository__` over the files of one directory. */
  method LoadDirectoryFiles(dirPath: string, dirName: string, files: seq<string>,
                            titleOf: string -> Option<string>)
    returns (directory: Directory)
    ensures directory == LoadFiles(dirPath, dirName, files, titleOf)
  {
    var mdFiles := AddAllLoop(files, LoadOneIn(dirPath, dirName, titleOf), PathOf);
    directory := Directory(dirPath, mdFiles);
  }

  /** `__scan_repository__`. */
  method ScanRepository(walk: seq<WalkEntry>, titleOf: string -> Option<string>)
    returns (tree: DocsTree)
    ensures tree == ScanTree(walk, titleOf)
  {
    tree := AddAllLoop(walk, ScanOneWith(titleOf), DirPathOf);
  }

  /** Every directory of the index is stored under its own path, holds at
      least one document, and is what some walk entry of that path, not named
      `images`, contributed; no path is stored twice. */
  lemma ScanTreeSound(walk: seq<WalkEntry>, titleOf: string -> Option<string>)
    ensures var tree := ScanTree(walk, titleOf);
      && DistinctKeys(tree)
      && forall i :: 0 <= i < |tree| ==>
           && tree[i].1.path == tree[i].0 && Truthy(tree[i].1)
           && exists w :: 0 <= w < |walk| && walk[w].dirPath == tree[i].0 &&
                          ScanOne(walk[w], titleOf) == Some(tree[i].1)
  {
    var one := ScanOneWith(titleOf);
    AddAllSound(walk, one, DirPathOf);
    var tree := ScanTree(walk, titleOf);
    forall i | 0 <= i < |tree|
      ensures && tree[i].1.path == tree[i].0 && Truthy(tree[i].1)
              && exists w :: 0 <= w < |walk| && walk[w].dirPath == tree[i].0 &&
                             ScanOne(walk[w], titleOf) == Some(tree[i].1)
    {
      var w :| 0 <= w < |walk| && one(walk[w]) == Some(tree[i].1);
    }
  }

  /** Walk paths are distinct, as `os.walk` visits each directory once. */
  predicate DistinctPaths(walk: seq<WalkEntry>) {
    forall i, j :: 0 <= i < j < |walk| ==> walk[i].dirPath != walk[j].dirPath
  }

  /** Every directory a walk entry contributes is in the index under its
      path. */
  lemma ScanTreeComplete(walk: seq<WalkEntry>, titleOf: string -> Option<string>)
    requires DistinctPaths(walk)
    ensures forall w :: 0 <= w < |walk| && ScanOne(walk[w], titleOf).Some? ==>
      Get(ScanTree(walk, titleOf), walk[w].dirPath) == ScanOne(walk[w], titleOf)
  {
    var tree := ScanTree(walk, titleOf);
    AddAllComplete(walk, ScanOneWith(titleOf), DirPathOf);
    ScanTreeSound(walk, titleOf);
    forall w | 0 <= w < |walk| && ScanOne(walk[w], titleOf).Some?
      ensures Get(tree, walk[w].dirPath) == ScanOne(walk[w], titleOf)
    {
      var d := ScanOne(walk[w], titleOf).value;
      assert Get(tree, DirPathOf(d)).Some?;
      var i := IndexOf(tree, walk[w].dirPath);
      var w' :| 0 <= w' < |walk| && walk[w'].dirPath == tree[i].0 &&
                ScanOne(walk[w'], titleOf) == Some(tree[i].1);
      assert w' == w;
    }
  }

  // ---------------------------------------------------------------------
  // MarkdownPages

  /** Why `MarkdownPages(repo_path)` refuses a repository. */
  datatype PagesError = RepoPathNone | RepoPathEmpty | RepoPathMissing | DocsRootMissing

  /** `MarkdownPages.__init__`: checks the repository path, then scans its
      `content` directory. `pathExists` stands for `os.path.exists` and `walkOf`
      for `os.walk` of the absolute path. */
  method NewMarkdownPages(repoPath: Option<string>, pathExists: string -> bool,
                          walkOf: string -> seq<WalkEntry>, titleOf: string -> Option<string>)
    returns (r: Result<DocsTree, PagesError>)
    ensures repoPath.None? ==> r == Failure(RepoPathNone)
    ensures repoPath == Some("") ==> r == Failure(RepoPathEmpty)
    ensures r.Success? <==>
      repoPath.Some? && repoPath.value != "" && pathExists(repoPath.value) &&
      pathExists(Join(repoPath.value, DocsRoot))
    ensures r.Success? ==> r.value == ScanTree(walkOf(Join(repoPath.value, DocsRoot)), titleOf)
  {
    if repoPath.None? {
      return Failure(RepoPathNone);
    }
    var repo := repoPath.value;
    if repo == "" {
      return Failure(RepoPathEmpty);
    }
    if !pathExists(repo) {
      return Failure(RepoPathMissing);
    }
    var docsRoot := Join(repo, DocsRoot);
    if !pathExists(docsRoot) {
      return Failure(DocsRootMissing);
    }
    var tree := ScanRepository(walkOf(docsRoot), titleOf);
    return Success(tree);
  }

  /** The title of the first directory, in scan order, that finds `name`. */
  function FirstTitle(dirs: seq<Directory>, name: string): (t: string)
    decreases |dirs|
  {
    if |dirs| == 0 then ""
    else
      match FindFile(dirs[0], name)
      case Some(f) => f.title
      case None => FirstTitle(dirs[1..], name)
  }

  /** `get_title`: the title of the document the first directory finds for
      the normalized reference, or the empty string. */
  function GetTitle(tree: DocsTree, mdDoc: string): string {
    FirstTitle(Values(tree), NormalizePath(mdDoc))
  }

  /** The title comes from the first directory that finds the name, and is
      empty when none does. */
  lemma {:induction false} FirstTitleSpec(dirs: seq<Directory>, name: string)
    ensures (forall i :: 0 <= i < |dirs| ==> FindFile(dirs[i], name).None?) ==>
      FirstTitle(dirs, name) == ""
    ensures forall k ::
      (0 <= k < |dirs| && FindFile(dirs[k], name).Some? &&
       forall i :: 0 <= i < k ==> FindFile(dirs[i], name).None?) ==>
        FirstTitle(dirs, name) == FindFile(dirs[k], name).value.title
    decreases |dirs|
  {
    if |dirs| > 0 {
      FirstTitleSpec(dirs[1..], name);
      forall k | 0 <= k < |dirs| && FindFile(dirs[k], name).Some? &&
                 (forall i :: 0 <= i < k ==> FindFile(dirs[i], name).None?)
        ensures FirstTitle(dirs, name) == FindFile(dirs[k], name).value.title
      {
        if k > 0 {
          assert FindFile(dirs[0], name).None?;
          assert dirs[1..][k - 1] == dirs[k];
          assert forall i :: 0 <= i < k - 1 ==> dirs[1..][i] == dirs[i + 1];
        }
      }
      if forall i :: 0 <= i < |dirs| ==> FindFile(dirs[i], name).None? {
        assert FindFile(dirs[0], name).None?;
        assert forall i :: 0 <= i < |dirs| - 1 ==> dirs[1..][i] == dirs[i + 1];
      }
    }
  }

  /** A reference that still holds a '\' after normalization, as any
      reference does whose directory part is more than leading `../`, finds
      no title in an index whose paths use only '/'. */
  lemma GetTitleNeedsBackslashPaths(tree: DocsTree, mdDoc: string)
    requires '\\' in NormalizePath(mdDoc)
    requires forall i, j :: 0 <= i < |tree| && 0 <= j < |tree[i].1.mdFiles| ==>
      '\\' !in tree[i].1.mdFiles[j].0
    ensures GetTitle(tree, mdDoc) == ""
  {
    var name := NormalizePath(mdDoc);
    var dirs := Values(tree);
    forall i | 0 <= i < |dirs|
      ensures FindFile(dirs[i], name).None?
    {
      forall j | 0 <= j < |dirs[i].mdFiles|
        ensures !Contains(dirs[i].mdFiles[j].0, name)
      {
        if Contains(dirs[i].mdFiles[j].0, name) {
          ContainsChar(dirs[i].mdFiles[j].0, name, '\\');
        }
      }
    }
    FirstTitleSpec(dirs, name);
  }
}
