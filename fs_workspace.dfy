/** Listing a workspace directory and saving a file with a version check
    (crates/fn-fs/src/lib.rs). What the file system reports — whether paths
    exist, canonical forms, the directory's items, file versions, the outcome
    of writes — is passed in; the model decides what the crate does with it. */
module FsWorkspace {
  import opened Wrappers
  import opened Text
  import opened Ints
  import opened FsPaths
  import Sorting

  datatype EntryKind = Directory | Markdown

  /** `WorkspaceEntry`. */
  datatype WorkspaceEntry = WorkspaceEntry(
    name: string,
    relativePath: string,
    absolutePath: string,
    kind: EntryKind,
    modifiedAt: U64)

  /** `ListWorkspaceEntriesResponse`. */
  datatype ListResponse = ListResponse(rootPath: string, currentRelativePath: string, entries: seq<WorkspaceEntry>)

  /** `entry_kind_rank`. */
  function EntryKindRank(kind: EntryKind): (r: nat)
    ensures r == 0 <==> kind == Directory
    ensures r <= 1
  {
    match kind
    case Directory => 0
    case Markdown => 1
  }

  predicate LexLt(a: string, b: string) {
    LexLe(a, b) && a != b
  }

  /** The listing comparator says `a` is not greater than `b`: by kind rank,
      then by lowercased name, then by the name itself. */
  predicate EntryLe(a: WorkspaceEntry, b: WorkspaceEntry) {
    var ra, rb := EntryKindRank(a.kind), EntryKindRank(b.kind);
    ra < rb ||
    (ra == rb &&
     (LexLt(ToLower(a.name), ToLower(b.name)) ||
      (ToLower(a.name) == ToLower(b.name) && LexLe(a.name, b.name))))
  }

  lemma EntryLeTotal(a: WorkspaceEntry, b: WorkspaceEntry)
    ensures EntryLe(a, b) || EntryLe(b, a)
  {
    LexLeTotal(ToLower(a.name), ToLower(b.name));
    LexLeTotal(a.name, b.name);
  }

  lemma EntryLeTransitive(a: WorkspaceEntry, b: WorkspaceEntry, c: WorkspaceEntry)
    requires EntryLe(a, b) && EntryLe(b, c)
    ensures EntryLe(a, c)
  {
    var la, lb, lc := ToLower(a.name), ToLower(b.name), ToLower(c.name);
    if EntryKindRank(a.kind) == EntryKindRank(b.kind) == EntryKindRank(c.kind) {
      if LexLt(la, lb) && LexLt(lb, lc) {
        LexLeTransitive(la, lb, lc);
        if la == lc {
          LexLeAntisymmetric(la, lb);
        }
      } else if la == lb && lb == lc {
        LexLeTransitive(a.name, b.name, c.name);
      }
    }
  }

  /** The comparator is a total preorder, so the sort is well defined. */
  lemma EntryOrder()
    ensures Sorting.TotalPreorder(EntryLe)
  {
    forall a, b ensures EntryLe(a, b) || EntryLe(b, a) {
      EntryLeTotal(a, b);
    }
    forall a, b, c | EntryLe(a, b) && EntryLe(b, c) ensures EntryLe(a, c) {
      EntryLeTransitive(a, b, c);
    }
  }

  /** Entries compare equal only when they have the same kind and name. */
  lemma EntryLeTies(a: WorkspaceEntry, b: WorkspaceEntry)
    requires EntryLe(a, b) && EntryLe(b, a)
    ensures a.kind == b.kind && a.name == b.name
  {
    var la, lb := ToLower(a.name), ToLower(b.name);
    if LexLt(la, lb) || LexLt(lb, la) {
      LexLeAntisymmetric(la, lb);
    } else {
      LexLeAntisymmetric(a.name, b.name);
    }
  }

  /** In a sorted listing, directories come first and each kind is ordered by
      lowercased name. */
  lemma SortedGroups(entries: seq<WorkspaceEntry>)
    requires Sorting.Sorted(entries, EntryLe)
    ensures forall i, j :: 0 <= i < j < |entries| && entries[j].kind == Directory ==> entries[i].kind == Directory
    ensures forall i, j :: 0 <= i < j < |entries| && entries[i].kind == entries[j].kind ==>
      LexLe(ToLower(entries[i].name), ToLower(entries[j].name))
  {
    forall i, j | 0 <= i < j < |entries| && entries[i].kind == entries[j].kind
      ensures LexLe(ToLower(entries[i].name), ToLower(entries[j].name))
    {
      assert EntryLe(entries[i], entries[j]);
      LexLeTotal(ToLower(entries[i].name), ToLower(entries[j].name));
    }
  }

  /** `entries.sort_by(...)`. */
  function SortEntries(entries: seq<WorkspaceEntry>): (r: seq<WorkspaceEntry>)
    ensures |r| == |entries|
  {
    Sorting.Sort(entries, EntryLe)
  }

  /** What `metadata()` reports of a directory item. */
  datatype Metadata = Metadata(isDir: bool, isFile: bool, modifiedAt: U64)

  /** An item of `read_dir`: its file name, its canonical path (`None` when
      canonicalizing fails) and its metadata. */
  datatype DirItem = DirItem(name: string, canonical: Option<string>, meta: Result<Metadata, FsError>)

  /** The body of the collecting loop for one item of the directory `current`:
      skipped (`Ok(None)`), listed, or an error reading the item, its metadata
      or its relative path. */
  function Admit(root: string, current: string, next: Result<DirItem, FsError>): Result<Option<WorkspaceEntry>, FsError> {
    match next
    case Err(e) => Err(e)
    case Ok(item) =>
      var path := JoinPath(current, item.name);
      if item.canonical.None? || !StartsWithPath(item.canonical.value, root) then Ok(None)
      else match item.meta
        case Err(e) => Err(e)
        case Ok(meta) =>
          if meta.isDir then
            match RelativePathString(root, path)
            case Err(e) => Err(e)
            case Ok(rel) => Ok(Some(WorkspaceEntry(item.name, rel, path, Directory, meta.modifiedAt)))
          else if meta.isFile && IsMarkdownFile(path) then
            match RelativePathString(root, path)
            case Err(e) => Err(e)
            case Ok(rel) => Ok(Some(WorkspaceEntry(item.name, rel, path, Markdown, meta.modifiedAt)))
          else Ok(None)
  }

  /** The entries collected from `items`, in order; the first error stops the loop. */
  function Collect(root: string, current: string, items: seq<Result<DirItem, FsError>>): Result<seq<WorkspaceEntry>, FsError> {
    if items == [] then Ok([])
    else match Collect(root, current, items[..|items| - 1])
      case Err(e) => Err(e)
      case Ok(entries) =>
        match Admit(root, current, items[|items| - 1])
        case Err(e) => Err(e)
        case Ok(None) => Ok(entries)
        case Ok(Some(entry)) => Ok(entries + [entry])
  }

  /** The collecting loop of `list_workspace_entries`. */
  method CollectEntries(root: string, current: string, items: seq<Result<DirItem, FsError>>)
    returns (r: Result<seq<WorkspaceEntry>, FsError>)
    ensures r == Collect(root, current, items)
  {
    var entries: seq<WorkspaceEntry> := [];
    var i := 0;
    while i < |items|
      invariant i <= |items|
      invariant Collect(root, current, items[..i]) == Ok(entries)
    {
      assert items[..i + 1][..i] == items[..i];
      var admitted := Admit(root, current, items[i]);
      match admitted {
        case Err(e) =>
          PrefixError(root, current, items, i + 1);
          return Err(e);
        case Ok(None) =>
        case Ok(Some(entry)) =>
          entries := entries + [entry];
      }
      i := i + 1;
    }
    assert items[..i] == items;
    return Ok(entries);
  }

  /** An error in a prefix of the items is the error of the whole loop. */
  lemma {:induction false} PrefixError(root: string, current: string, items: seq<Result<DirItem, FsError>>, n: nat)
    requires n <= |items| && Collect(root, current, items[..n]).Err?
    ensures Collect(root, current, items) == Collect(root, current, items[..n])
    decreases |items| - n
  {
    if n < |items| {
      assert items[..n + 1][..n] == items[..n];
      PrefixError(root, current, items, n + 1);
    } else {
      assert items[..n] == items;
    }
  }

  /** Every collected entry is a directory or a Markdown file of `current`,
      carrying its path relative to the root. */
  lemma {:induction false} CollectedEntries(root: string, current: string, items: seq<Result<DirItem, FsError>>)
    requires Collect(root, current, items).Ok?
    ensures forall k :: 0 <= k < |Collect(root, current, items).value| ==>
      var e := Collect(root, current, items).value[k];
      e.absolutePath == JoinPath(current, e.name) &&
      (e.kind == Markdown ==> IsMarkdownFile(e.absolutePath)) &&
      RelativePathString(root, e.absolutePath) == Ok(e.relativePath)
  {
    if items != [] {
      CollectedEntries(root, current, items[..|items| - 1]);
    }
  }

  /** An item is listed exactly when it is a directory, or a Markdown file,
      whose canonical path lies under the root. */
  lemma AdmitIff(root: string, current: string, item: DirItem)
    requires Admit(root, current, Ok(item)).Ok?
    ensures Admit(root, current, Ok(item)).value.Some? <==>
      item.canonical.Some? && StartsWithPath(item.canonical.value, root) &&
      (item.meta.value.isDir || (item.meta.value.isFile && IsMarkdownFile(JoinPath(current, item.name))))
  {
  }

  /** Probes of the file system that `list_workspace_entries` consults. */
  datatype ListProbes = ListProbes(
    rootExists: bool,
    rootIsDir: bool,
    canonicalRoot: Result<string, FsError>,
    candidateExists: bool,
    canonicalCandidate: Result<string, FsError>,
    currentExists: bool,
    currentIsDir: bool,
    items: Result<seq<Result<DirItem, FsError>>, FsError>)

  /** `normalize_workspace_root`. */
  function NormalizeWorkspaceRoot(path: string, p: ListProbes): (r: Result<string, FsError>)
    ensures Trim(path) == "" ==> r == Err(EmptyPath)
  {
    if Trim(path) == "" then Err(EmptyPath)
    else if !p.rootExists then Err(FileNotFound(path))
    else if !p.rootIsDir then Err(InvalidPath("workspace root is not a directory: " + path))
    else p.canonicalRoot
  }

  /** What `list_workspace_entries` returns. */
  function Listing(workspaceRoot: string, relativePath: Option<string>, p: ListProbes): Result<ListResponse, FsError> {
    match NormalizeWorkspaceRoot(workspaceRoot, p)
    case Err(e) => Err(e)
    case Ok(root) =>
      match ResolveWorkspaceRelativePath(root, relativePath, p.candidateExists, p.canonicalCandidate)
      case Err(e) => Err(e)
      case Ok(current) =>
        if !p.currentExists then Err(FileNotFound(current))
        else if !p.currentIsDir then Err(InvalidPath("target is not a directory: " + current))
        else if p.items.Err? then Err(p.items.error)
        else match Collect(root, current, p.items.value)
          case Err(e) => Err(e)
          case Ok(entries) =>
            match RelativePathString(root, current)
            case Err(e) => Err(e)
            case Ok(rel) => Ok(ListResponse(root, rel, SortEntries(entries)))
  }

  /** `list_workspace_entries`. */
  method ListWorkspaceEntries(workspaceRoot: string, relativePath: Option<string>, p: ListProbes)
    returns (r: Result<ListResponse, FsError>)
    ensures r == Listing(workspaceRoot, relativePath, p)
  {
    var normalizedRoot := NormalizeWorkspaceRoot(workspaceRoot, p);
    if normalizedRoot.Err? {
      return Err(normalizedRoot.error);
    }
    var root := normalizedRoot.value;
    var resolved := ResolveWorkspaceRelativePath(root, relativePath, p.candidateExists, p.canonicalCandidate);
    if resolved.Err? {
      return Err(resolved.error);
    }
    var current := resolved.value;
    if !p.currentExists {
      return Err(FileNotFound(current));
    }
    if !p.currentIsDir {
      return Err(InvalidPath("target is not a directory: " + current));
    }
    if p.items.Err? {
      return Err(p.items.error);
    }
    var collected := CollectEntries(root, current, p.items.value);
    if collected.Err? {
      return Err(collected.error);
    }
    var entries := SortEntries(collected.value);
    var rel := RelativePathString(root, current);
    if rel.Err? {
      return Err(rel.error);
    }
    return Ok(ListResponse(root, rel.value, entries));
  }

  /** The listed entries are the collected ones, sorted: directories before
      Markdown files, each group by lowercased name and then by name; entries
      that compare equal keep the order the directory gave them. */
  lemma ListingOrder(workspaceRoot: string, relativePath: Option<string>, p: ListProbes)
    requires Listing(workspaceRoot, relativePath, p).Ok?
    ensures var entries := Listing(workspaceRoot, relativePath, p).value.entries;
      Sorting.Sorted(entries, EntryLe) &&
      (forall i, j :: 0 <= i < j < |entries| && entries[j].kind == Directory ==> entries[i].kind == Directory) &&
      (forall i, j :: 0 <= i < j < |entries| && entries[i].kind == entries[j].kind ==>
         LexLe(ToLower(entries[i].name), ToLower(entries[j].name)))
  {
    var root := NormalizeWorkspaceRoot(workspaceRoot, p).value;
    var current := ResolveWorkspaceRelativePath(root, relativePath, p.candidateExists, p.canonicalCandidate).value;
    var collected := Collect(root, current, p.items.value).value;
    EntryOrder();
    Sorting.SortSorted(collected, EntryLe);
    SortedGroups(SortEntries(collected));
  }

  /** Listing neither drops nor invents entries. */
  lemma ListingPermutes(workspaceRoot: string, relativePath: Option<string>, p: ListProbes)
    requires Listing(workspaceRoot, relativePath, p).Ok?
    ensures var root := NormalizeWorkspaceRoot(workspaceRoot, p).value;
      var current := ResolveWorkspaceRelativePath(root, relativePath, p.candidateExists, p.canonicalCandidate).value;
      multiset(Listing(workspaceRoot, relativePath, p).value.entries) == multiset(Collect(root, current, p.items.value).value)
  {
    var root := NormalizeWorkspaceRoot(workspaceRoot, p).value;
    var current := ResolveWorkspaceRelativePath(root, relativePath, p.candidateExists, p.canonicalCandidate).value;
    Sorting.SortPermutes(Collect(root, current, p.items.value).value, EntryLe);
  }

  /** Listing the root itself reports the empty relative path. */
  lemma ListingRootIsEmptyRelative(workspaceRoot: string, p: ListProbes)
    requires Listing(workspaceRoot, None, p).Ok?
    ensures Listing(workspaceRoot, None, p).value.currentRelativePath == ""
  {
    var root := NormalizeWorkspaceRoot(workspaceRoot, p).value;
    assert Trim("") == "";
    RelativeOfRoot(root);
  }

  /** Listing `"../outside"` is refused as out of the workspace. */
  lemma ListingOutsideRejected(workspaceRoot: string, p: ListProbes)
    requires NormalizeWorkspaceRoot(workspaceRoot, p).Ok?
    ensures Listing(workspaceRoot, Some("../outside"), p) == Err(OutOfWorkspace("../outside"))
  {
    ResolveOutsideRejected(NormalizeWorkspaceRoot(workspaceRoot, p).value, p.candidateExists, p.canonicalCandidate);
  }

  /** Names whose first letters differ in case-insensitive order compare by them. */
  lemma FirstLetterOrder(a: string, b: string)
    requires a != [] && b != [] && LowerChar(a[0]) < LowerChar(b[0])
    ensures LexLt(ToLower(a), ToLower(b))
  {
  }

  /** The listing of a directory holding the directories `zeta-dir` and
      `alpha-dir` and the Markdown files `note.md` and `guide.markdown` (the
      entries `t`, in the expected order), whatever order the directory
      gives them in: `alpha-dir`, `zeta-dir`, `guide.markdown`, `note.md`. */
  lemma ListingExample(collected: seq<WorkspaceEntry>, t: seq<WorkspaceEntry>)
    requires |t| == 4
    requires t[0].name == "alpha-dir" && t[0].kind == Directory
    requires t[1].name == "zeta-dir" && t[1].kind == Directory
    requires t[2].name == "guide.markdown" && t[2].kind == Markdown
    requires t[3].name == "note.md" && t[3].kind == Markdown
    requires multiset(collected) == multiset(t)
    ensures SortEntries(collected) == t
  {
    FirstLetterOrder(t[0].name, t[1].name);
    FirstLetterOrder(t[2].name, t[3].name);
    assert Sorting.Sorted(t, EntryLe);
    forall i, j | 0 <= i < |t| && 0 <= j < |t| && EntryLe(t[i], t[j]) && EntryLe(t[j], t[i])
      ensures t[i] == t[j]
    {
      EntryLeTies(t[i], t[j]);
    }
    EntryOrder();
    Sorting.SortIsUnique(collected, t, EntryLe);
  }

  // ----- save_file -----

  /** `SaveFileResponse`; `bytesWritten` is the byte count of the content written. */
  datatype SaveFileResponse = SaveFileResponse(path: string, version: U64, bytesWritten: nat, conflict: bool)

  /** The number of bytes of `s` in UTF-8. */
  function Utf8Length(s: string): nat {
    if s == [] then 0
    else
      var c := s[0] as int;
      (if c < 0x80 then 1 else if c < 0x800 then 2 else if c < 0x1_0000 then 3 else 4) + Utf8Length(s[1..])
  }

  /** Probes of the file system that `save_file` consults: the write target is
      a directory, its parent is missing (and then how it is written), the file
      exists, the version of its current content, the outcome of the atomic
      write, and the version of the new content. */
  datatype SaveProbes = SaveProbes(
    targetIsDir: bool,
    missingParent: Option<string>,
    fileExists: bool,
    currentVersion: Result<U64, FsError>,
    writeFailure: Option<FsError>,
    nextVersion: Result<U64, FsError>)

  /** `normalize_write_target`. */
  function NormalizeWriteTarget(path: string, p: SaveProbes): (r: Result<string, FsError>)
    ensures r.Ok? ==> r == NormalizePath(path)
  {
    match NormalizePath(path)
    case Err(e) => Err(e)
    case Ok(target) =>
      if p.targetIsDir then Err(IsDirectory(target))
      else match p.missingParent
        case Some(parent) => Err(InvalidPath("parent directory does not exist: " + parent))
        case None => Ok(target)
  }

  /** `save_file`: a stale expected version writes nothing and reports a conflict
      with the version found on disk. */
  function SaveFile(path: string, content: string, expectedVersion: U64, p: SaveProbes): Result<SaveFileResponse, FsError> {
    match NormalizeWriteTarget(path, p)
    case Err(e) => Err(e)
    case Ok(target) =>
      if !p.fileExists then Err(FileNotFound(target))
      else match p.currentVersion
        case Err(e) => Err(e)
        case Ok(current) =>
          if current != expectedVersion then Ok(SaveFileResponse(target, current, 0, true))
          else match p.writeFailure
            case Some(e) => Err(e)
            case None =>
              match p.nextVersion
              case Err(e) => Err(e)
              case Ok(next) => Ok(SaveFileResponse(target, next, Utf8Length(content), false))
  }

  /** A version other than the expected one is a conflict: nothing is written,
      whatever writing would have done, and the current version is returned. */
  lemma SaveConflict(path: string, content: string, expectedVersion: U64, p: SaveProbes, current: U64)
    requires NormalizeWriteTarget(path, p).Ok? && p.fileExists
    requires p.currentVersion == Ok(current) && current != expectedVersion
    ensures SaveFile(path, content, expectedVersion, p) == Ok(SaveFileResponse(path, current, 0, true))
    ensures forall q: SaveProbes ::
      (q.targetIsDir == p.targetIsDir && q.missingParent == p.missingParent &&
       q.fileExists == p.fileExists && q.currentVersion == p.currentVersion) ==>
      SaveFile(path, content, expectedVersion, q) == SaveFile(path, content, expectedVersion, p)
  {
  }

  /** With the expected version, a successful save writes the whole content and
      reports no conflict; a reported conflict always comes from a version mismatch. */
  lemma SaveWrites(path: string, content: string, expectedVersion: U64, p: SaveProbes)
    requires SaveFile(path, content, expectedVersion, p).Ok?
    ensures var r := SaveFile(path, content, expectedVersion, p).value;
      r.path == path &&
      (r.conflict <==> p.currentVersion.value != expectedVersion) &&
      (r.conflict ==> r.bytesWritten == 0 && r.version == p.currentVersion.value) &&
      (!r.conflict ==> r.bytesWritten == Utf8Length(content) && r.version == p.nextVersion.value)
  {
  }

  /** A blank path is refused before anything is probed. */
  lemma SaveEmptyPath(content: string, expectedVersion: U64, p: SaveProbes)
    ensures SaveFile("", content, expectedVersion, p) == Err(EmptyPath)
    ensures SaveAsFile("", content, p) == Err(EmptyPath)
  {
  }

  /** `save_as_file`: writes without a version check. */
  function SaveAsFile(path: string, content: string, p: SaveProbes): Result<SaveFileResponse, FsError> {
    match NormalizeWriteTarget(path, p)
    case Err(e) => Err(e)
    case Ok(target) =>
      match p.writeFailure
      case Some(e) => Err(e)
      case None =>
        match p.nextVersion
        case Err(e) => Err(e)
        case Ok(next) => Ok(SaveFileResponse(target, next, Utf8Length(content), false))
  }

  /** Saving as never reports a conflict; it writes the whole content or fails,
      and it fails with `InvalidPath` when the parent directory is missing. */
  lemma SaveAsWrites(path: string, content: string, p: SaveProbes)
    ensures SaveAsFile(path, content, p).Ok? ==>
      SaveAsFile(path, content, p).value == SaveFileResponse(path, p.nextVersion.value, Utf8Length(content), false)
    ensures NormalizePath(path).Ok? && !p.targetIsDir && p.missingParent.Some? ==>
      SaveAsFile(path, content, p).Err? && SaveAsFile(path, content, p).error.InvalidPath?
  {
  }

  /** On the expected version, saving and saving as do the same. */
  lemma SaveMatchesSaveAs(path: string, content: string, expectedVersion: U64, p: SaveProbes)
    requires p.fileExists && p.currentVersion == Ok(expectedVersion)
    ensures SaveFile(path, content, expectedVersion, p) == SaveAsFile(path, content, p)
  {
  }

  /** Every character is one to four bytes. */
  lemma {:induction false} Utf8Bounds(s: string)
    ensures |s| <= Utf8Length(s) <= 4 * |s|
  {
    if s != [] {
      Utf8Bounds(s[1..]);
    }
  }
}
