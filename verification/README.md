# Markdown scan and Mermaid code blocks, modelled in Dafny

This project models two pieces of `server.js` in the markdown + Mermaid
preview server:

- `scanMarkdownFiles(dirPath)` and its inner `scanDir`. The scan walks a
  directory tree. It skips directories whose name starts with `.` and the
  `node_modules` directory. It keeps every regular file whose lower-cased
  name ends in `.md`, and records the file's name, full path, path relative
  to the root, size and mtime. The records are returned sorted by relative
  path.
- The `renderer.code` override given to the markdown renderer. A fenced
  block tagged exactly `mermaid` becomes `<div class="mermaid">` + raw text
  + `</div>`. Any other block goes to the renderer's original `code` method.

The filesystem is a finite tree (`FsTree`). A directory's listing is the
sequence `readdirSync` returned, in whatever order that was, or `Unreadable`
when `readdirSync` throws. An entry's node is what `statSync` reports: a file
with size and mtime, a directory, something else, or `Broken` when `statSync`
throws. The scan root is `None` when `existsSync` is false.

Modules:

- `Paths`: the suffix test, the directory exclusion rule, and relative paths
  joined with `/`.
- `FsTree`: the tree, and `Found`, a path-based reference definition of what
  the scan must return. `Found` is written independently of the walk.
- `Sorting`: insertion sort under an abstract total preorder. It stands in
  for `Array.prototype.sort` with a `localeCompare` comparator.
- `Scanner`: `Walk`, the pure model of `scanDir`'s push order. `ScanDir` and
  `ScanItem` are the loop as written, proved to push what `Walk` describes.
  `ScanMarkdownFiles` is the whole function. The lemmas tie `Walk` to `Found`
  and state the partial-result policy.
- `CodeRenderer`: the Mermaid override. The original renderer is a function
  parameter.
- `ScanExamples`: small concrete trees.

Three behaviours a reader might expect from a markdown preview server are
not what `server.js` does, and the model follows the code:

- One might expect hidden entries to be skipped. The code tests the
  hidden-name rule only on directories (server.js:55); the file branch
  (server.js:58) looks at the suffix alone, so a file named `.notes.md` is
  returned (`Scanner.FileInRootReturned`, `ScanExamples.HiddenFileIsKept`).
- One might expect an unreadable branch to be skipped while the walk goes on
  into its siblings. That holds for a subdirectory `readdirSync` cannot read,
  because each `scanDir` call has its own `try`. It does not hold for an
  entry `statSync` cannot stat. The `try` wraps the whole loop
  (server.js:46-71), so such an entry ends the walk of its directory. The
  entries listed after it are not visited (`Scanner.WalkStopsAtFailure`).
- One might expect heading ids, a table of contents or scroll highlighting.
  None of that is in `server.js`: the preview route hands the renderer's
  output straight to the page template (server.js:282-284). It is not
  modelled.

## Model

| member | source | states |
|---|---|---|
| `Paths.MarkdownNameChars` | server.js:58 | a name passes the lower-cased `.md` suffix test exactly when its last three characters are `.`, `m` or `M`, and `d` or `D` |
| `Paths.JoinPathSnoc` | server.js:50 | adding one component to a non-empty relative path appends `/` and the component, as `path.join(currentPath, item)` does |
| `Paths.RelativeToPathUnder` | server.js:59 | `path.relative(root, fullPath)` of an entry's full path gives back its components joined by `/` |
| `FsTree.FirstBroken` | server.js:46-71 | the loop gets through exactly the entries before the first one whose `statSync` throws |
| `FsTree.FoundExcludes` | server.js:53-58 | on every path the scan accepts, each directory component is neither hidden nor `node_modules`, and the last component has a markdown name |
| `Sorting.Insert` | server.js:78 | inserting into a sorted sequence keeps it sorted and adds exactly that one element |
| `Sorting.SortBy` | server.js:78 | the sorted result is ordered by the comparator and is a permutation of the input |
| `Scanner.WalkSound` | server.js:45-72 | every file `scanDir` pushes lies below the current directory on a path the reference definition `Found` accepts |
| `Scanner.WalkComplete` | server.js:45-72 | every file on a path `Found` accepts is pushed by `scanDir` |
| `Scanner.WalkFound` | server.js:45-72 | `scanDir` pushes a file if and only if `Found` accepts its path, size and mtime |
| `Scanner.WalkAppend` | server.js:53-57 | a failure inside a subdirectory does not stop the parent's loop; the walk of `a + b` is the walk of `a` then the walk of `b` when no entry of `a` fails to stat |
| `Scanner.WalkStopsAtFailure` | server.js:46-71 | an entry whose `statSync` throws ends its directory's walk; what was pushed before it is kept and nothing after it is visited |
| `Scanner.DirectoryAdmission` | server.js:53-57 | a subdirectory entry is walked, under its own name, exactly when its name is empty or does not start with `.`, is not `node_modules`, and its listing can be read; otherwise it adds nothing |
| `Scanner.FileAdmission` | server.js:58-67 | a file entry is pushed exactly when its last three characters are `.`, `m` or `M`, `d` or `D`; its first character plays no part |
| `Scanner.RecordFields` | server.js:59-66 | a record's name, size and mtime are the entry's own; its path is the root, `/` and the relative path, and `path.relative` of that path is the relative path, which ends with the name |
| `Scanner.ScanItem` | server.js:49-67 | one loop iteration descends into an admitted directory or pushes a markdown file, exactly as the walk does for that entry |
| `Scanner.ScanDir` | server.js:45-72 | the loop pushes the records of `Walk` in walk order; a directory whose `readdirSync` throws pushes nothing |
| `Scanner.ByPathPreorder` | server.js:78 | comparing records by `relativePath` under a total preorder on strings is a total preorder on records |
| `Scanner.ScanMarkdownFiles` | server.js:74-78 | a missing or unreadable root gives the empty list; otherwise the result is ordered by relative path and is a permutation of the collected records |
| `Scanner.ScanFindsExactly` | server.js:42-79 | a record is in the result if and only if it is the record of a file that `Found` accepts below the root |
| `Scanner.FileInRootReturned` | server.js:42-79 | every markdown file listed in a readable root before any stat failure is in the result under its own name and relative path, hidden or not |
| `Scanner.ScanExcludes` | server.js:53-66 | every returned record has a markdown name, and its relative path is a chain of non-hidden, non-`node_modules` directories followed by that name |
| `CodeRenderer.MermaidSource` | server.js:36 | reading the text back out of a diagram container succeeds only on opening tag, text, closing tag |
| `CodeRenderer.RenderCode` | server.js:34-39 | for the tag `mermaid` the output is a diagram container whose text is the code; for any other tag, or none, the output is the original renderer's |
| `CodeRenderer.MermaidPassthrough` | server.js:35-36 | a `mermaid` block renders to exactly opening tag, unescaped code, closing tag, whatever the original renderer would do |
| `CodeRenderer.CapitalisedTagFallsBack` | server.js:35 | the tag test is case-sensitive: `Mermaid` goes to the original renderer |
| `CodeRenderer.DiagramExample` | server.js:34-36 | the block `graph TD; A-->B` renders to a container holding that text verbatim |
| `ScanExamples.SkipsHiddenAndVendorDirs` | server.js:53-57 | a tree with `.git/file.md`, `node_modules/sub/file.md` and `docs/readme.md` scans to the one record for `docs/readme.md` |
| `ScanExamples.HiddenFileIsKept` | server.js:53-58 | a file named `.notes.md` is returned |
| `ScanExamples.SuffixExamples` | server.js:58 | `README.MD` and `notes.Md` pass the suffix test; `x.markdown` and `md` do not |
| `ScanExamples.FailureStaysInItsDirectory` | server.js:45-71 | a stat failure in a subdirectory drops the later entries of that subdirectory only; the root's later files are still returned |
| `ScanExamples.UnreadableDirIsSkipped` | server.js:46-47 | an unreadable subdirectory contributes nothing and its siblings are still scanned |

## Left out

- Heading ids, table of contents and scroll-synchronised highlighting: there is no code for them in `server.js`, so there is nothing to model them against.
- Express set-up and routes (`/`, `/api/scan`, `/api/upload`, `/preview`, `/preview-upload`), their status codes and JSON shapes (server.js:13-16, 233-307): HTTP plumbing.
- multer upload storage and its generated file names (server.js:11, 258-270): library I/O.
- `marked` itself and the `setOptions` `highlight` hook (server.js:19-28): the renderer is a library whose code is not part of this model. The original `code` method is an opaque function parameter.
- `generatePreviewPage` (server.js:82-230): an HTML and CSS string template with no logic beyond interpolation.
- Server start-up and signal handlers (server.js:310-330): process lifecycle.
- `public/script.js`: browser UI code. Its size formatting uses floating point and its date formatting depends on the locale.
- The real `fs` calls (`readdirSync`, `statSync`, `existsSync`) and the `console.error` logging in the catch: the tree datatype replaces the calls, and logging has no effect on the result.
- Symbolic-link cycles: `statSync` follows links, so a link to an ancestor makes the source recurse until some call fails. A finite tree cannot express that.
- `Paths.Lower`: only ASCII letters are folded, not JavaScript's full Unicode case mapping. No other character lower-cases to `.`, `m` or `d`, so the suffix test is the same either way.
- `Scanner.RecordFields`: the path is the root, `/` and the relative path. `path.join`'s normalisation of the root string (a trailing `/`, `.` or `..` segments) is not modelled, nor are Windows separators.
- `Scanner.ScanMarkdownFiles`: does not state that `Array.prototype.sort` is stable. Records whose relative paths the comparator ranks equal are only said to be adjacent in some order.
- `Sorting.SortBy`: `localeCompare` is an abstract total preorder supplied by the caller. The behaviour of `sort` under a comparator that is not a total preorder is not modelled.
- The mtime is a whole number, not a JavaScript `Date`.
