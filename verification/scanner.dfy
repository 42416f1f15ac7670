/**
  `scanMarkdownFiles` and its inner `scanDir`: a recursive walk that collects
  every markdown file below a root, followed by a sort by relative path.
 */
module Scanner {
  import opened Options
  import opened Paths
  import opened FsTree
  import opened Sorting

  /** One element of the scan's result. */
  datatype FileRecord = FileRecord(
    name: string,          // the entry's own name
    path: string,          // the root joined with the relative path
    relativePath: string,  // path from the root, components joined by '/'
    size: nat,
    modified: int)

  /** A matched file: its directory's components below the root, its name, and its stat data. */
  datatype Hit = Hit(dir: seq<string>, name: string, size: nat, modified: int)

  /** Directory components then file name: the hit's path below the root. */
  function Segments(h: Hit): (segs: seq<string>) {
    h.dir + [h.name]
  }

  /**
    What `scanDir` pushes, in push order, for the listing `es` of the directory
    at `prefix` below the root. The `try` around the loop means the first
    entry whose `statSync` throws ends this directory: nothing after it is
    visited, and what was pushed before it stays. A subdirectory is walked by
    its own call, whose own `try` keeps its failures to itself.
   */
  function Walk(prefix: seq<string>, es: seq<Entry>): (hits: seq<Hit>)
    decreases es
  {
    if |es| == 0 then []
    else
      var e := es[0];
      match e.node
      case Broken => []
      case Special => Walk(prefix, es[1..])
      case File(size, modified) =>
        (if IsMarkdownName(e.name) then [Hit(prefix, e.name, size, modified)] else [])
        + Walk(prefix, es[1..])
      case Dir(listing) =>
        (if Descends(e.name) && listing.Readable? then Walk(prefix + [e.name], listing.entries) else [])
        + Walk(prefix, es[1..])
  }

  lemma FirstBrokenTail(es: seq<Entry>)
    requires |es| > 0 && !es[0].node.Broken?
    ensures FirstBroken(es) == 1 + FirstBroken(es[1..])
  {
  }

  /** Everything the walk collects is found, in the sense of `Found`. */
  lemma {:induction false} WalkSound(prefix: seq<string>, es: seq<Entry>, h: Hit)
    requires h in Walk(prefix, es)
    ensures prefix <= h.dir
    ensures Found(es, Segments(h)[|prefix|..], h.size, h.modified)
    decreases es
  {
    var e := es[0];
    var tail := Walk(prefix, es[1..]);
    FirstBrokenTail(es);
    if h in tail {
      WalkSound(prefix, es[1..], h);
      var rest := Segments(h)[|prefix|..];
      var i :| 0 <= i < FirstBroken(es[1..]) && es[1..][i].name == rest[0] && FoundAt(es[1..][i], rest, h.size, h.modified);
      assert es[i + 1] == es[1..][i];
    } else {
      match e.node
      case File(size, modified) =>
        assert h == Hit(prefix, e.name, size, modified);
        assert Segments(h)[|prefix|..] == [e.name];
        assert FoundAt(es[0], [e.name], h.size, h.modified);
      case Dir(listing) =>
        var p' := prefix + [e.name];
        assert h in Walk(p', listing.entries);
        WalkSound(p', listing.entries, h);
        var rest := Segments(h)[|prefix|..];
        assert rest[0] == e.name;
        assert rest[1..] == Segments(h)[|p'|..];
        assert FoundAt(es[0], rest, h.size, h.modified);
    }
  }

  /** Everything that is found, in the sense of `Found`, the walk collects. */
  lemma {:induction false} WalkComplete(prefix: seq<string>, es: seq<Entry>, h: Hit)
    requires prefix <= h.dir
    requires Found(es, Segments(h)[|prefix|..], h.size, h.modified)
    ensures h in Walk(prefix, es)
    decreases es
  {
    var rest := Segments(h)[|prefix|..];
    var i :| 0 <= i < FirstBroken(es) && es[i].name == rest[0] && FoundAt(es[i], rest, h.size, h.modified);
    var e := es[0];
    FirstBrokenTail(es);
    if i > 0 {
      assert es[1..][i - 1] == es[i];
      assert Found(es[1..], rest, h.size, h.modified);
      WalkComplete(prefix, es[1..], h);
    } else if |rest| == 1 {
      assert h.dir == prefix && h.name == e.name;
      assert h == Hit(prefix, e.name, e.node.size, e.node.modified);
    } else {
      var p' := prefix + [e.name];
      assert h.dir[..|prefix| + 1] == p';
      assert Segments(h)[|p'|..] == rest[1..];
      WalkComplete(p', e.node.listing.entries, h);
    }
  }

  /** The walk collects exactly the hits `Found` describes. */
  lemma WalkFound(prefix: seq<string>, es: seq<Entry>, h: Hit)
    ensures h in Walk(prefix, es) <==> prefix <= h.dir && Found(es, Segments(h)[|prefix|..], h.size, h.modified)
  {
    if h in Walk(prefix, es) {
      WalkSound(prefix, es, h);
    }
    if prefix <= h.dir && Found(es, Segments(h)[|prefix|..], h.size, h.modified) {
      WalkComplete(prefix, es, h);
    }
  }

  /**
    Failures inside `a`'s subdirectories do not stop the loop: as long as no
    entry of `a` itself fails to stat, the entries after `a` are walked too.
   */
  lemma {:induction false} WalkAppend(prefix: seq<string>, a: seq<Entry>, b: seq<Entry>)
    requires forall i :: 0 <= i < |a| ==> !a[i].node.Broken?
    ensures Walk(prefix, a + b) == Walk(prefix, a) + Walk(prefix, b)
    decreases a
  {
    if |a| > 0 {
      assert (a + b)[0] == a[0];
      assert (a + b)[1..] == a[1..] + b;
      WalkAppend(prefix, a[1..], b);
    } else {
      assert a + b == b;
    }
  }

  /**
    An entry that fails to stat ends its directory's walk: the hits pushed
    for the entries before it are kept and nothing after it is visited.
   */
  lemma {:induction false} WalkStopsAtFailure(prefix: seq<string>, a: seq<Entry>, name: string, b: seq<Entry>)
    ensures Walk(prefix, a + [Entry(name, Broken)] + b) == Walk(prefix, a)
    decreases a
  {
    var es := a + [Entry(name, Broken)] + b;
    if |a| > 0 {
      assert es[0] == a[0];
      assert es[1..] == a[1..] + [Entry(name, Broken)] + b;
      WalkStopsAtFailure(prefix, a[1..], name, b);
    } else {
      assert es[0] == Entry(name, Broken);
    }
  }

  /**
    The directory rule of the loop, character by character: a subdirectory
    is walked exactly when its name does not start with '.', is not
    `node_modules`, and its listing can be read; otherwise it adds nothing.
   */
  lemma DirectoryAdmission(prefix: seq<string>, name: string, listing: Listing)
    ensures Walk(prefix, [Entry(name, Dir(listing))]) ==
              if (|name| == 0 || name[0] != '.') && name != VendorDir && listing.Readable?
              then Walk(prefix + [name], listing.entries)
              else []
  {
    DescendsChars(name);
    assert [Entry(name, Dir(listing))][1..] == [];
  }

  /**
    The file rule of the loop, character by character: a file is pushed
    exactly when its name ends in '.', 'm' or 'M', 'd' or 'D'. The name's
    first character plays no part, so hidden files are pushed too.
   */
  lemma FileAdmission(prefix: seq<string>, name: string, size: nat, modified: int)
    ensures Walk(prefix, [Entry(name, File(size, modified))]) ==
              if |name| >= 3 && name[|name| - 3] == '.' && name[|name| - 2] in {'m', 'M'} && name[|name| - 1] in {'d', 'D'}
              then [Hit(prefix, name, size, modified)]
              else []
  {
    MarkdownNameChars(name);
    assert [Entry(name, File(size, modified))][1..] == [];
  }

  /** The listing `readdirSync` gives for the scan root: only a directory has one. */
  function RootListing(root: Option<Node>): (l: Listing) {
    if root.Some? && root.value.Dir? then root.value.listing else Unreadable
  }

  /** The record `files.push` builds for a hit. */
  function ToRecord(root: string, h: Hit): (r: FileRecord) {
    var segs := Segments(h);
    FileRecord(h.name, PathUnder(root, segs), JoinPath(segs), h.size, h.modified)
  }

  /**
    A record's name, size and mtime are the entry's own; its path lies under
    the root, `path.relative` of it is the relative path, and the relative
    path ends with the name.
   */
  lemma RecordFields(root: string, h: Hit)
    ensures ToRecord(root, h).name == h.name
    ensures ToRecord(root, h).size == h.size && ToRecord(root, h).modified == h.modified
    ensures var r := ToRecord(root, h);
            && StartsWith(r.path, root) && |r.path| > |root| && r.path[|root|] == '/'
            && RelativeTo(root, r.path) == r.relativePath
            && EndsWith(r.relativePath, h.name)
  {
    var segs := Segments(h);
    RelativeToPathUnder(root, segs);
    JoinPathSuffix(segs);
  }

  /** A joined path ends with its last component. */
  lemma {:induction false} JoinPathSuffix(segs: seq<string>)
    requires |segs| > 0
    ensures EndsWith(JoinPath(segs), segs[|segs| - 1])
    decreases |segs|
  {
    if |segs| > 1 {
      JoinPathSuffix(segs[1..]);
      assert segs[1..][|segs[1..]| - 1] == segs[|segs| - 1];
    }
  }

  /** The records pushed for a sequence of hits, in order. */
  function Records(root: string, hs: seq<Hit>): (rs: seq<FileRecord>)
    ensures |rs| == |hs|
  {
    if |hs| == 0 then [] else [ToRecord(root, hs[0])] + Records(root, hs[1..])
  }

  /** The records `scanDir` collects from the root, before sorting. */
  function Collect(root: string, tree: Option<Node>): (rs: seq<FileRecord>) {
    match RootListing(tree)
    case Unreadable => []
    case Readable(es) => Records(root, Walk([], es))
  }

  /**
    The body of `scanDir` for the directory at `currentPath`, `prefix` below
    the root: `readdirSync`, then the loop over the items, each inside the one
    `try`. Pushes the same records, in the same order, as `Walk`.
   */
  method ScanDir(root: string, currentPath: string, prefix: seq<string>, listing: Listing)
    returns (files: seq<FileRecord>)
    requires currentPath == PathUnder(root, prefix)
    ensures listing.Unreadable? ==> files == []
    ensures listing.Readable? ==> files == Records(root, Walk(prefix, listing.entries))
    decreases listing
  {
    files := [];
    if listing.Unreadable? {
      return;  // readdirSync threw; the catch logs and returns
    }
    var items := listing.entries;
    var i := 0;
    // The loop leaves early at the first item whose statSync throws: the
    // catch, outside the loop, ends this directory's walk.
    while i < |items| && !items[i].node.Broken?
      invariant 0 <= i <= |items|
      invariant forall j :: 0 <= j < i ==> !items[j].node.Broken?
      invariant files == Records(root, Walk(prefix, items[..i]))
    {
      var step := ScanItem(root, currentPath, prefix, items[i]);
      RecordsExtend(root, prefix, items, i);
      files := files + step;
      i := i + 1;
    }
    WalkUpTo(prefix, items, i);
  }

  /** Walking one more statable entry appends that entry's records. */
  lemma RecordsExtend(root: string, prefix: seq<string>, items: seq<Entry>, i: nat)
    requires i < |items|
    requires forall j :: 0 <= j <= i ==> !items[j].node.Broken?
    ensures Records(root, Walk(prefix, items[..i + 1]))
         == Records(root, Walk(prefix, items[..i])) + Records(root, Walk(prefix, [items[i]]))
  {
    assert items[..i + 1] == items[..i] + [items[i]];
    WalkAppend(prefix, items[..i], [items[i]]);
    RecordsAppend(root, Walk(prefix, items[..i]), Walk(prefix, [items[i]]));
  }

  /** Where the loop stops, at the end or at the first failing entry, the walk is complete. */
  lemma WalkUpTo(prefix: seq<string>, items: seq<Entry>, i: nat)
    requires i <= |items|
    requires i < |items| ==> items[i].node.Broken?
    ensures Walk(prefix, items) == Walk(prefix, items[..i])
  {
    if i < |items| {
      assert items == items[..i] + [Entry(items[i].name, Broken)] + items[i + 1..];
      WalkStopsAtFailure(prefix, items[..i], items[i].name, items[i + 1..]);
    } else {
      assert items[..i] == items;
    }
  }

  lemma {:induction false} RecordsAppend(root: string, a: seq<Hit>, b: seq<Hit>)
    ensures Records(root, a + b) == Records(root, a) + Records(root, b)
    decreases |a|
  {
    if |a| == 0 {
      assert a + b == b;
    } else {
      assert (a + b)[1..] == a[1..] + b;
      RecordsAppend(root, a[1..], b);
    }
  }

  /**
    One iteration of `scanDir`'s loop, for an item whose `statSync` succeeded:
    descend into a directory the exclusion rule admits, push a markdown file.
   */
  method ScanItem(root: string, currentPath: string, prefix: seq<string>, e: Entry)
    returns (step: seq<FileRecord>)
    requires currentPath == PathUnder(root, prefix)
    requires !e.node.Broken?
    ensures step == Records(root, Walk(prefix, [e]))
    decreases e
  {
    var item := e.name;
    var fullPath := currentPath + "/" + item;
    FullPathStep(root, prefix, item);
    step := [];
    match e.node {
      case Special =>
      case Dir(sub) =>
        if Descends(item) {
          step := ScanDir(root, fullPath, prefix + [item], sub);
        }
      case File(size, modified) =>
        if IsMarkdownName(item) {
          PathUnderRoot(root, prefix + [item]);
          var relativePath := RelativeTo(root, fullPath);
          step := [FileRecord(item, fullPath, relativePath, size, modified)];
        }
    }
    WalkOne(root, prefix, e, step);
  }

  /** What one loop iteration pushes, for an entry that stats successfully. */
  lemma WalkOne(root: string, prefix: seq<string>, e: Entry, step: seq<FileRecord>)
    requires !e.node.Broken?
    requires e.node.Special? ==> step == []
    requires e.node.Dir? ==> step == (if Descends(e.name) && e.node.listing.Readable?
                                      then Records(root, Walk(prefix + [e.name], e.node.listing.entries)) else [])
    requires e.node.File? ==> step == (if IsMarkdownName(e.name)
                                       then [FileRecord(e.name, PathUnder(root, prefix + [e.name]),
                                                        JoinPath(prefix + [e.name]), e.node.size, e.node.modified)]
                                       else [])
    ensures step == Records(root, Walk(prefix, [e]))
  {
    assert [e][1..] == [];
    if e.node.File? && IsMarkdownName(e.name) {
      var h := Hit(prefix, e.name, e.node.size, e.node.modified);
      assert Walk(prefix, [e]) == [h];
      assert [h][1..] == [];
      assert Records(root, [h]) == [ToRecord(root, h)];
    } else if e.node.Dir? {
      var hits := if Descends(e.name) && e.node.listing.Readable? then Walk(prefix + [e.name], e.node.listing.entries) else [];
      assert Walk(prefix, [e]) == hits + [];
      assert hits + [] == hits;
    }
  }

  /** `path.join(currentPath, item)` for a normalised path is the path of the child. */
  lemma FullPathStep(root: string, prefix: seq<string>, item: string)
    ensures PathUnder(root, prefix) + "/" + item == PathUnder(root, prefix + [item])
  {
    if |prefix| > 0 {
      JoinPathSnoc(prefix, item);
    } else {
      assert prefix + [item] == [item];
    }
  }

  /** The sort key of `scanMarkdownFiles`: compare records by relative path. */
  function ByPath(le: (string, string) -> bool): (cmp: (FileRecord, FileRecord) -> bool) {
    (a: FileRecord, b: FileRecord) => le(a.relativePath, b.relativePath)
  }

  lemma ByPathPreorder(le: (string, string) -> bool)
    requires TotalPreorder(le)
    ensures TotalPreorder(ByPath(le))
  {
    var cmp := ByPath(le);
    forall a: FileRecord, b: FileRecord
      ensures cmp(a, b) || cmp(b, a)
    {
      assert le(a.relativePath, b.relativePath) || le(b.relativePath, a.relativePath);
    }
    forall a: FileRecord, b: FileRecord, c: FileRecord | cmp(a, b) && cmp(b, c)
      ensures cmp(a, c)
    {
      assert le(a.relativePath, b.relativePath) && le(b.relativePath, c.relativePath);
    }
  }

  /**
    `scanMarkdownFiles(dirPath)`: nothing when the root does not exist,
    otherwise the records `scanDir` collects, sorted by relative path under
    the comparator `le` (`le(a, b)` when `a.localeCompare(b) <= 0`).
   */
  function ScanMarkdownFiles(root: string, tree: Option<Node>, le: (string, string) -> bool)
    : (files: seq<FileRecord>)
    requires TotalPreorder(le)
    ensures tree.None? ==> files == []
    ensures RootListing(tree).Unreadable? ==> files == []
    ensures forall i, j :: 0 <= i < j < |files| ==> le(files[i].relativePath, files[j].relativePath)
    ensures multiset(files) == multiset(Collect(root, tree))
  {
    ByPathPreorder(le);
    var sorted := SortBy(ByPath(le), Collect(root, tree));
    assert SortedBy(ByPath(le), sorted);
    sorted
  }

  /** Sorting leaves a single collected record as it is. */
  lemma ScanSingle(root: string, tree: Option<Node>, le: (string, string) -> bool, r: FileRecord)
    requires TotalPreorder(le)
    requires Collect(root, tree) == [r]
    ensures ScanMarkdownFiles(root, tree, le) == [r]
  {
    var files := ScanMarkdownFiles(root, tree, le);
    assert multiset(files) == multiset{r};
    assert |files| == 1;
    assert files[0] in multiset(files);
  }

  /** The record of every hit is among the records. */
  lemma {:induction false} RecordOfMember(root: string, hs: seq<Hit>, h: Hit)
    requires h in hs
    ensures ToRecord(root, h) in Records(root, hs)
    decreases |hs|
  {
    assert Records(root, hs) == [ToRecord(root, hs[0])] + Records(root, hs[1..]);
    if h != hs[0] {
      assert h in hs[1..];
      RecordOfMember(root, hs[1..], h);
    }
  }

  /** Every record comes from one of the hits. */
  lemma {:induction false} RecordSource(root: string, hs: seq<Hit>, f: FileRecord) returns (h: Hit)
    requires f in Records(root, hs)
    ensures h in hs && f == ToRecord(root, h)
    decreases |hs|
  {
    assert Records(root, hs) == [ToRecord(root, hs[0])] + Records(root, hs[1..]);
    if f == ToRecord(root, hs[0]) {
      h := hs[0];
    } else {
      h := RecordSource(root, hs[1..], f);
      assert h in hs[1..];
    }
  }

  /**
    The scan of a readable root returns exactly the records of the files
    `Found` below it: every found file is returned, and nothing else is.
   */
  lemma ScanFindsExactly(root: string, es: seq<Entry>, le: (string, string) -> bool, f: FileRecord)
    requires TotalPreorder(le)
    ensures f in ScanMarkdownFiles(root, Some(Dir(Readable(es))), le)
        <==> exists h :: Found(es, Segments(h), h.size, h.modified) && f == ToRecord(root, h)
  {
    var tree := Some(Dir(Readable(es)));
    var files := ScanMarkdownFiles(root, tree, le);
    var walk := Walk([], es);
    assert f in files <==> f in multiset(files);
    assert f in files <==> f in Records(root, walk);
    if f in files {
      var h := RecordSource(root, walk, f);
      WalkSound([], es, h);
      assert Segments(h)[0..] == Segments(h);
    }
    if exists h :: Found(es, Segments(h), h.size, h.modified) && f == ToRecord(root, h) {
      var h :| Found(es, Segments(h), h.size, h.modified) && f == ToRecord(root, h);
      assert Segments(h)[0..] == Segments(h);
      WalkComplete([], es, h);
      RecordOfMember(root, walk, h);
    }
  }

  /**
    A markdown file listed directly in a readable root, before any entry
    whose `statSync` throws, is returned under its own name, whatever its
    first character.
   */
  lemma FileInRootReturned(root: string, es: seq<Entry>, le: (string, string) -> bool, i: nat)
    requires TotalPreorder(le)
    requires i < FirstBroken(es)
    requires es[i].node.File? && IsMarkdownName(es[i].name)
    ensures var r := ToRecord(root, Hit([], es[i].name, es[i].node.size, es[i].node.modified));
            && r in ScanMarkdownFiles(root, Some(Dir(Readable(es))), le)
            && r.name == es[i].name && r.relativePath == es[i].name
  {
    var h := Hit([], es[i].name, es[i].node.size, es[i].node.modified);
    assert Segments(h) == [es[i].name];
    assert FoundAt(es[i], Segments(h), h.size, h.modified);
    assert Found(es, Segments(h), h.size, h.modified);
    ScanFindsExactly(root, es, le, ToRecord(root, h));
  }

  /**
    Every returned record names a markdown file whose directories below the
    root are neither hidden nor `node_modules`; its relative path is those
    directories and its own name joined by '/'.
   */
  lemma ScanExcludes(root: string, tree: Option<Node>, le: (string, string) -> bool, f: FileRecord)
    requires TotalPreorder(le)
    requires f in ScanMarkdownFiles(root, tree, le)
    ensures IsMarkdownName(f.name)
    ensures exists dirs :: f.relativePath == JoinPath(dirs + [f.name])
                        && forall j :: 0 <= j < |dirs| ==> Descends(dirs[j])
  {
    if RootListing(tree).Unreadable? {
      assert false;
    }
    var es := RootListing(tree).entries;
    var walk := Walk([], es);
    assert f in multiset(ScanMarkdownFiles(root, tree, le));
    assert f in Records(root, walk);
    var h := RecordSource(root, walk, f);
    WalkSound([], es, h);
    assert Segments(h)[0..] == Segments(h);
    FoundExcludes(es, Segments(h), h.size, h.modified);
    forall j | 0 <= j < |h.dir|
      ensures Descends(h.dir[j])
    {
      assert h.dir[j] == Segments(h)[j];
    }
    assert f.relativePath == JoinPath(h.dir + [f.name]);
  }
}
