/**
  The filesystem as the directory scan sees it: a finite tree of named
  entries. Each `readdirSync` becomes a `Listing` (which may fail) and each
  `statSync` becomes a `Node` (which may fail). Entry order is the order
  `readdirSync` happened to return; nothing is assumed about it.
 */
module FsTree {
  import opened Paths

  /** What `statSync` reports for an entry. */
  datatype Node =
    | File(size: nat, modified: int)  // a regular file, with its size and mtime
    | Dir(listing: Listing)           // a directory
    | Special                         // neither file nor directory (socket, FIFO, device)
    | Broken                          // `statSync` throws (vanished entry, dangling link, EACCES)

  /** What `readdirSync` reports for a directory. */
  datatype Listing =
    | Readable(entries: seq<Entry>)
    | Unreadable                      // `readdirSync` throws

  datatype Entry = Entry(name: string, node: Node)

  /**
    Number of entries the scan loop gets through before `statSync` throws:
    the index of the first `Broken` entry, or all of them.
   */
  function FirstBroken(es: seq<Entry>): (k: nat)
    ensures k <= |es|
    ensures forall i :: 0 <= i < k ==> !es[i].node.Broken?
    ensures k < |es| ==> es[k].node.Broken?
  {
    if |es| == 0 then 0
    else if es[0].node.Broken? then 0
    else 1 + FirstBroken(es[1..])
  }

  /**
    Reference definition of what the scan must find, stated on paths rather
    than on the walk: `segments` names a chain of entries, each one before the
    first failing entry of its directory, every intermediate one a readable
    directory the scan descends into, and the last one a regular file with a
    markdown name, the given size and the given mtime.
   */
  ghost predicate Found(es: seq<Entry>, segments: seq<string>, size: nat, modified: int)
    decreases segments
  {
    && |segments| > 0
    && exists i :: 0 <= i < FirstBroken(es) && es[i].name == segments[0] && FoundAt(es[i], segments, size, modified)
  }

  /** `Found`, once the entry named by `segments[0]` has been picked. */
  ghost predicate FoundAt(e: Entry, segments: seq<string>, size: nat, modified: int)
    requires |segments| > 0
    decreases segments, 0
  {
    if |segments| == 1 then
      e.node == File(size, modified) && IsMarkdownName(e.name)
    else
      && e.node.Dir?
      && e.node.listing.Readable?
      && Descends(e.name)
      && Found(e.node.listing.entries, segments[1..], size, modified)
  }

  /**
    Every directory on a found path is one the scan descends into, and the
    file itself has a markdown name. Hidden files are not excluded: only the
    directory components are tested against the hidden-name rule.
   */
  lemma {:induction false} FoundExcludes(es: seq<Entry>, segments: seq<string>, size: nat, modified: int)
    requires Found(es, segments, size, modified)
    ensures forall j :: 0 <= j < |segments| - 1 ==> Descends(segments[j])
    ensures IsMarkdownName(segments[|segments| - 1])
    decreases segments
  {
    var i :| 0 <= i < FirstBroken(es) && es[i].name == segments[0] && FoundAt(es[i], segments, size, modified);
    if |segments| > 1 {
      var sub := es[i].node.listing.entries;
      FoundExcludes(sub, segments[1..], size, modified);
      forall j | 0 <= j < |segments| - 1
        ensures Descends(segments[j])
      {
        if j > 0 {
          assert segments[j] == segments[1..][j - 1];
        }
      }
      assert segments[|segments| - 1] == segments[1..][|segments[1..]| - 1];
    }
  }
}
