/**
  Concrete scans of small trees: the exclusion rules, the suffix test and the
  partial-result policy on inputs one can read at a glance.
 */
module ScanExamples {
  import opened Options
  import opened Paths
  import opened FsTree
  import opened Sorting
  import opened Scanner

  function MdFile(name: string, size: nat): Entry {
    Entry(name, File(size, 0))
  }

  function Folder(name: string, entries: seq<Entry>): Entry {
    Entry(name, Dir(Readable(entries)))
  }

  /** The record of a file directly in the root. */
  lemma RecordAtRoot(root: string, name: string, size: nat)
    ensures ToRecord(root, Hit([], name, size, 0)) == FileRecord(name, root + "/" + name, name, size, 0)
  {
    assert Segments(Hit([], name, size, 0)) == [name];
  }

  /** A root whose walk collects one hit collects that hit's record. */
  lemma CollectOfOneHit(es: seq<Entry>, h: Hit, r: FileRecord)
    requires Walk([], es) == [h]
    requires ToRecord("/r", h) == r
    ensures Collect("/r", Some(Dir(Readable(es)))) == [r]
  {
    assert [h][1..] == [];
    assert Records("/r", [h]) == [r];
  }

  /** The walk of a single markdown file is its hit. */
  lemma WalkOfFile(prefix: seq<string>, name: string, size: nat)
    requires IsMarkdownName(name)
    ensures Walk(prefix, [MdFile(name, size)]) == [Hit(prefix, name, size, 0)]
  {
    assert [MdFile(name, size)][1..] == [];
  }

  /** The walk of a single directory the scan descends into is the walk of its entries. */
  lemma WalkOfFolder(name: string, entries: seq<Entry>)
    requires Descends(name)
    ensures Walk([], [Folder(name, entries)]) == Walk([name], entries)
  {
    assert [Folder(name, entries)][1..] == [];
    assert [] + [name] == [name];
  }

  lemma ReadmeIsMarkdown()
    ensures IsMarkdownName("readme.md")
  {
    MarkdownNameChars("readme.md");
  }

  lemma NotesIsMarkdown()
    ensures IsMarkdownName(".notes.md")
  {
    MarkdownNameChars(".notes.md");
  }

  lemma TopIsMarkdown()
    ensures IsMarkdownName("top.md")
  {
    MarkdownNameChars("top.md");
  }

  lemma AIsMarkdown()
    ensures IsMarkdownName("a.md")
  {
    MarkdownNameChars("a.md");
  }

  /** `.git/file.md`, `node_modules/sub/file.md` and `docs/readme.md`. */
  function VendorTree(): seq<Entry> {
    [Folder(".git", [MdFile("file.md", 1)]),
     Folder("node_modules", [Folder("sub", [MdFile("file.md", 2)])]),
     Folder("docs", [MdFile("readme.md", 3)])]
  }

  lemma VendorTreeWalk()
    ensures Walk([], VendorTree()) == [Hit(["docs"], "readme.md", 3, 0)]
  {
    var git := Folder(".git", [MdFile("file.md", 1)]);
    var vendor := Folder("node_modules", [Folder("sub", [MdFile("file.md", 2)])]);
    var docs := Folder("docs", [MdFile("readme.md", 3)]);
    assert VendorTree() == [git] + ([vendor] + [docs]);
    WalkAppend([], [git], [vendor] + [docs]);
    WalkAppend([], [vendor], [docs]);
    assert Walk([], [git]) == [] by {
      DescendsChars(".git");
      assert [git][1..] == [];
    }
    assert Walk([], [vendor]) == [] by {
      assert [vendor][1..] == [];
    }
    DescendsChars("docs");
    WalkOfFolder("docs", [MdFile("readme.md", 3)]);
    ReadmeIsMarkdown();
    WalkOfFile(["docs"], "readme.md", 3);
  }

  /** The record of a file one directory below the root, its paths spelled out. */
  lemma RecordInSubdir(root: string, dir: string, name: string, size: nat, rel: string, path: string)
    requires dir + "/" + name == rel
    requires root + "/" + rel == path
    ensures ToRecord(root, Hit([dir], name, size, 0)) == FileRecord(name, path, rel, size, 0)
  {
    var segs := Segments(Hit([dir], name, size, 0));
    assert segs == [dir, name];
    assert segs[1..] == [name];
  }

  lemma DocsRecord()
    ensures ToRecord("/r", Hit(["docs"], "readme.md", 3, 0))
         == FileRecord("readme.md", "/r/docs/readme.md", "docs/readme.md", 3, 0)
  {
    assert "docs" + "/" + "readme.md" == "docs/readme.md";
    assert "/r" + "/" + "docs/readme.md" == "/r/docs/readme.md";
    RecordInSubdir("/r", "docs", "readme.md", 3, "docs/readme.md", "/r/docs/readme.md");
  }

  lemma VendorTreeCollect()
    ensures Collect("/r", Some(Dir(Readable(VendorTree()))))
         == [FileRecord("readme.md", "/r/docs/readme.md", "docs/readme.md", 3, 0)]
  {
    VendorTreeWalk();
    DocsRecord();
    CollectOfOneHit(VendorTree(), Hit(["docs"], "readme.md", 3, 0),
                    FileRecord("readme.md", "/r/docs/readme.md", "docs/readme.md", 3, 0));
  }

  /**
    A tree holding `.git/file.md`, `node_modules/sub/file.md` and
    `docs/readme.md` scans to the one record for `docs/readme.md`.
   */
  lemma SkipsHiddenAndVendorDirs(le: (string, string) -> bool)
    requires TotalPreorder(le)
    ensures ScanMarkdownFiles("/r", Some(Dir(Readable(VendorTree()))), le)
         == [FileRecord("readme.md", "/r/docs/readme.md", "docs/readme.md", 3, 0)]
  {
    VendorTreeCollect();
    ScanSingle("/r", Some(Dir(Readable(VendorTree()))), le,
               FileRecord("readme.md", "/r/docs/readme.md", "docs/readme.md", 3, 0));
  }

  /** A single hidden file, `.notes.md`. */
  function NotesTree(): seq<Entry> {
    [MdFile(".notes.md", 5)]
  }

  lemma NotesCollect()
    ensures Collect("/r", Some(Dir(Readable(NotesTree())))) == [FileRecord(".notes.md", "/r/.notes.md", ".notes.md", 5, 0)]
  {
    var h := Hit([], ".notes.md", 5, 0);
    NotesIsMarkdown();
    WalkOfFile([], ".notes.md", 5);
    RecordAtRoot("/r", ".notes.md", h.size);
    assert "/r" + "/" + ".notes.md" == "/r/.notes.md";
    CollectOfOneHit(NotesTree(), h, FileRecord(".notes.md", "/r/.notes.md", ".notes.md", 5, 0));
  }

  /** The hidden-name rule is for directories only: `.notes.md` is returned. */
  lemma HiddenFileIsKept(le: (string, string) -> bool)
    requires TotalPreorder(le)
    ensures ScanMarkdownFiles("/r", Some(Dir(Readable(NotesTree()))), le)
         == [FileRecord(".notes.md", "/r/.notes.md", ".notes.md", 5, 0)]
  {
    NotesCollect();
    ScanSingle("/r", Some(Dir(Readable(NotesTree()))), le, FileRecord(".notes.md", "/r/.notes.md", ".notes.md", 5, 0));
  }

  /** The suffix test ignores case and wants exactly `.md`. */
  lemma SuffixExamples()
    ensures IsMarkdownName("README.MD")
    ensures IsMarkdownName("notes.Md")
    ensures !IsMarkdownName("x.markdown")
    ensures !IsMarkdownName("md")
  {
    MarkdownNameChars("README.MD");
    MarkdownNameChars("notes.Md");
    MarkdownNameChars("x.markdown");
    MarkdownNameChars("md");
  }

  /** `sub/gone` (cannot be stat-ed), `sub/late.md`, then `top.md`. */
  function FailureTree(): seq<Entry> {
    [Folder("sub", [Entry("gone", Broken), MdFile("late.md", 1)]), MdFile("top.md", 2)]
  }

  lemma FailureTreeWalk()
    ensures Walk([], FailureTree()) == [Hit([], "top.md", 2, 0)]
  {
    var sub := Folder("sub", [Entry("gone", Broken), MdFile("late.md", 1)]);
    var top := MdFile("top.md", 2);
    assert FailureTree() == [sub] + [top];
    WalkAppend([], [sub], [top]);
    DescendsChars("sub");
    WalkOfFolder("sub", [Entry("gone", Broken), MdFile("late.md", 1)]);
    assert Walk(["sub"], [Entry("gone", Broken), MdFile("late.md", 1)]) == [];
    TopIsMarkdown();
    WalkOfFile([], "top.md", 2);
  }

  lemma FailureTreeCollect()
    ensures Collect("/r", Some(Dir(Readable(FailureTree())))) == [FileRecord("top.md", "/r/top.md", "top.md", 2, 0)]
  {
    var h := Hit([], "top.md", 2, 0);
    FailureTreeWalk();
    RecordAtRoot("/r", "top.md", h.size);
    assert "/r" + "/" + "top.md" == "/r/top.md";
    CollectOfOneHit(FailureTree(), h, FileRecord("top.md", "/r/top.md", "top.md", 2, 0));
  }

  /**
    An entry that cannot be stat-ed ends its own directory only: `late.md`
    after it in `sub` is skipped, `top.md` after `sub` in the root is kept.
   */
  lemma FailureStaysInItsDirectory(le: (string, string) -> bool)
    requires TotalPreorder(le)
    ensures ScanMarkdownFiles("/r", Some(Dir(Readable(FailureTree()))), le)
         == [FileRecord("top.md", "/r/top.md", "top.md", 2, 0)]
  {
    FailureTreeCollect();
    ScanSingle("/r", Some(Dir(Readable(FailureTree()))), le, FileRecord("top.md", "/r/top.md", "top.md", 2, 0));
  }

  /** `locked` (cannot be listed), then `a.md`. */
  function LockedTree(): seq<Entry> {
    [Entry("locked", Dir(Unreadable)), MdFile("a.md", 7)]
  }

  lemma UnreadableTreeWalk()
    ensures Walk([], LockedTree()) == [Hit([], "a.md", 7, 0)]
  {
    var locked := Entry("locked", Dir(Unreadable));
    var a := MdFile("a.md", 7);
    assert LockedTree() == [locked] + [a];
    WalkAppend([], [locked], [a]);
    assert Walk([], [locked]) == [] by {
      assert [locked][1..] == [];
    }
    AIsMarkdown();
    WalkOfFile([], "a.md", 7);
  }

  lemma LockedTreeCollect()
    ensures Collect("/r", Some(Dir(Readable(LockedTree())))) == [FileRecord("a.md", "/r/a.md", "a.md", 7, 0)]
  {
    var h := Hit([], "a.md", 7, 0);
    UnreadableTreeWalk();
    RecordAtRoot("/r", "a.md", h.size);
    assert "/r" + "/" + "a.md" == "/r/a.md";
    CollectOfOneHit(LockedTree(), h, FileRecord("a.md", "/r/a.md", "a.md", 7, 0));
  }

  /** An unreadable subdirectory contributes nothing and its siblings are still scanned. */
  lemma UnreadableDirIsSkipped(le: (string, string) -> bool)
    requires TotalPreorder(le)
    ensures ScanMarkdownFiles("/r", Some(Dir(Readable(LockedTree()))), le)
         == [FileRecord("a.md", "/r/a.md", "a.md", 7, 0)]
  {
    LockedTreeCollect();
    ScanSingle("/r", Some(Dir(Readable(LockedTree()))), le, FileRecord("a.md", "/r/a.md", "a.md", 7, 0));
  }
}
