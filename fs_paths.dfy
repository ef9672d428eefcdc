/** The pure path rules of the file-system crate (crates/fn-fs/src/lib.rs):
    splitting a path into components as `std::path::Path::components` does on
    Unix, normalizing a workspace-relative path with a stack of names,
    validating a file path, resolving a relative path against the workspace
    root, printing a path relative to the root, and the Markdown extension
    test. Probes of the file system are parameters. */
module FsPaths {
  import opened Wrappers
  import opened Text
  import SearchOps

  /** `FsError`; the payloads of foreign errors are kept as text. */
  datatype FsError =
    | EmptyPath
    | InvalidPath(detail: string)
    | FileNotFound(detail: string)
    | IsDirectory(detail: string)
    | PermissionDenied(detail: string)
    | OutOfWorkspace(detail: string)
    | InvalidRelativePath(detail: string)
    | VersionConflict
    | Utf8(detail: string)
    | Io(detail: string)
    | Watch(detail: string)
    | Lock

  /** `std::path::Component`. `Prefix` only arises on Windows. */
  datatype Component = Prefix(text: string) | RootDir | CurDir | ParentDir | Normal(name: string)

  /** The pieces of `s` between '/' separators. */
  function Segments(s: string): (r: seq<string>)
    ensures |r| >= 1
  {
    if s == [] then [""]
    else if s[0] == '/' then [""] + Segments(s[1..])
    else Prepend(s[0], Segments(s[1..]))
  }

  /** A character added in front of the first segment. */
  function Prepend(c: char, segs: seq<string>): (r: seq<string>)
    requires |segs| >= 1
    ensures |r| == |segs|
  {
    [[c] + segs[0]] + segs[1..]
  }

  /** The component a segment after the first stands for: none for an empty
      segment or ".", the parent for "..", a name otherwise. */
  function Part(segment: string): (r: seq<Component>)
    ensures |r| <= 1
  {
    if segment == "" || segment == "." then []
    else if segment == ".." then [ParentDir]
    else [Normal(segment)]
  }

  function Parts(segs: seq<string>): (r: seq<Component>)
    ensures |r| <= |segs|
  {
    if segs == [] then [] else Part(segs[0]) + Parts(segs[1..])
  }

  /** `Path::components` on Unix: a leading '/' is the root, repeated separators
      and "." components are skipped except a "." at the very start of a
      relative path, and ".." is the parent. */
  function Components(s: string): seq<Component> {
    Assemble(IsAbsolute(s), Segments(s))
  }

  /** The components of a path from its segments: the first segment is the
      root (of an absolute path), a leading ".", or an ordinary segment. */
  function Assemble(rooted: bool, segs: seq<string>): seq<Component>
    requires |segs| >= 1
  {
    if rooted then [RootDir] + Parts(segs[1..])
    else if segs[0] == "." then [CurDir] + Parts(segs[1..])
    else Parts(segs)
  }

  /** A name that `Components` yields as a `Normal` component. */
  predicate ValidName(n: string) {
    n != "" && n != "." && n != ".." && '/' !in n
  }

  function Normals(names: seq<string>): (r: seq<Component>)
    ensures |r| == |names|
  {
    if names == [] then [] else [Normal(names[0])] + Normals(names[1..])
  }

  /** `Path::is_absolute` on Unix. */
  predicate IsAbsolute(p: string) {
    p != [] && p[0] == '/'
  }

  /** The names of a `PathBuf` built by `push`, written out: joined with '/'. */
  function JoinNames(names: seq<string>): string {
    SearchOps.Join(names, "/")
  }

  // ----- normalize_relative_path -----

  /** The stack machine of `normalize_relative_path`, run over the components
      `cs` with the names pushed so far in `stack`. */
  function NormalizeFrom(cs: seq<Component>, stack: seq<string>, relative: string): Result<seq<string>, FsError> {
    if cs == [] then Ok(stack)
    else match cs[0]
      case CurDir => NormalizeFrom(cs[1..], stack, relative)
      case Normal(v) => NormalizeFrom(cs[1..], stack + [v], relative)
      case ParentDir =>
        if stack == [] then Err(OutOfWorkspace(relative))
        else NormalizeFrom(cs[1..], stack[..|stack| - 1], relative)
      case _ => Err(InvalidRelativePath(relative))
  }

  /** What `normalize_relative_path` computes: the names of the normalized path. */
  function NormalizeRelative(relative: string): Result<seq<string>, FsError> {
    NormalizeFrom(Components(relative), [], relative)
  }

  /** `normalize_relative_path`. */
  method NormalizeRelativePath(relative: string) returns (r: Result<seq<string>, FsError>)
    ensures r == NormalizeRelative(relative)
  {
    var cs := Components(relative);
    var normalized: seq<string> := [];
    var i := 0;
    while i < |cs|
      invariant i <= |cs|
      invariant NormalizeFrom(cs[i..], normalized, relative) == NormalizeFrom(cs, [], relative)
    {
      assert cs[i..][1..] == cs[i + 1..];
      match cs[i] {
        case CurDir =>
        case Normal(v) =>
          normalized := normalized + [v];
        case ParentDir =>
          if normalized == [] {
            return Err(OutOfWorkspace(relative));
          }
          normalized := normalized[..|normalized| - 1];
        case _ =>
          return Err(InvalidRelativePath(relative));
      }
      i := i + 1;
    }
    return Ok(normalized);
  }

  lemma {:induction false} SegmentsHaveNoSlash(s: string)
    ensures forall k :: 0 <= k < |Segments(s)| ==> '/' !in Segments(s)[k]
  {
    if s != [] {
      SegmentsHaveNoSlash(s[1..]);
    }
  }

  lemma {:induction false} PartsAreValid(segs: seq<string>)
    requires forall k :: 0 <= k < |segs| ==> '/' !in segs[k]
    ensures forall k :: 0 <= k < |Parts(segs)| ==> Parts(segs)[k].Normal? ==> ValidName(Parts(segs)[k].name)
  {
    if segs != [] {
      PartsAreValid(segs[1..]);
    }
  }

  /** Every `Normal` component is a valid name. */
  lemma ComponentsAreValid(s: string)
    ensures forall k :: 0 <= k < |Components(s)| ==> Components(s)[k].Normal? ==> ValidName(Components(s)[k].name)
  {
    SegmentsHaveNoSlash(s);
    var segs := Segments(s);
    PartsAreValid(segs);
    PartsAreValid(segs[1..]);
  }

  lemma {:induction false} NormalizeFromValid(cs: seq<Component>, stack: seq<string>, relative: string)
    requires forall k :: 0 <= k < |cs| ==> cs[k].Normal? ==> ValidName(cs[k].name)
    requires forall k :: 0 <= k < |stack| ==> ValidName(stack[k])
    ensures NormalizeFrom(cs, stack, relative).Ok? ==>
      forall k :: 0 <= k < |NormalizeFrom(cs, stack, relative).value| ==> ValidName(NormalizeFrom(cs, stack, relative).value[k])
  {
    if cs != [] {
      match cs[0]
      case CurDir => NormalizeFromValid(cs[1..], stack, relative);
      case Normal(v) => NormalizeFromValid(cs[1..], stack + [v], relative);
      case ParentDir =>
        if stack != [] {
          NormalizeFromValid(cs[1..], stack[..|stack| - 1], relative);
        }
      case _ =>
    }
  }

  /** A normalized path holds only proper names: no empty, "." or ".." component, no separator. */
  lemma NormalizedNamesAreValid(relative: string)
    ensures NormalizeRelative(relative).Ok? ==>
      forall k :: 0 <= k < |NormalizeRelative(relative).value| ==> ValidName(NormalizeRelative(relative).value[k])
  {
    ComponentsAreValid(relative);
    NormalizeFromValid(Components(relative), [], relative);
  }

  /** A path that begins by going up is out of the workspace. */
  lemma EscapeRejected(relative: string)
    requires Components(relative) != [] && Components(relative)[0] == ParentDir
    ensures NormalizeRelative(relative) == Err(OutOfWorkspace(relative))
  {
  }

  /** Going up, then into a name. */
  lemma UpThenName(n: string, path: string)
    requires ValidName(n) && path == ".." + "/" + n
    ensures Components(path) == [ParentDir, Normal(n)]
  {
    SegmentsCons("..", n);
    SegmentsOfName(n);
    assert Segments(path) == ["..", n];
    assert path[0] == '.';
    assert Parts([n]) == [Normal(n)];
  }

  lemma OutsideParts()
    ensures ValidName("outside") && "../outside" == ".." + "/" + "outside"
  {
  }

  lemma OutsideStartsWithParent()
    ensures Components("../outside") == [ParentDir, Normal("outside")]
  {
    OutsideParts();
    UpThenName("outside", "../outside");
  }

  /** `"../outside"` is rejected as out of the workspace. */
  lemma OutsideRejected()
    ensures NormalizeRelative("../outside") == Err(OutOfWorkspace("../outside"))
  {
    OutsideStartsWithParent();
    EscapeRejected("../outside");
  }

  /** An absolute path is not a relative one. */
  lemma RootedRejected(relative: string)
    requires IsAbsolute(relative)
    ensures NormalizeRelative(relative) == Err(InvalidRelativePath(relative))
  {
  }

  lemma {:induction false} SegmentsOfName(n: string)
    requires '/' !in n
    ensures Segments(n) == [n]
  {
    if n != [] {
      SegmentsOfName(n[1..]);
      assert n == [n[0]] + n[1..];
    }
  }

  /** Splitting `a + "/" + b` at separators, with no separator in `a`. */
  lemma SegmentsCons(a: string, b: string)
    requires '/' !in a
    ensures Segments(a + "/" + b) == [a] + Segments(b)
  {
    assert a + "/" + b == a + ("/" + b);
    assert ("/" + b)[1..] == b;
    SegmentsAppend(a, "/" + b);
    SegmentsOfName(a);
  }

  /** Splitting joined names gives the names back. */
  lemma {:induction false} SegmentsOfJoin(names: seq<string>)
    requires |names| >= 1 && forall k :: 0 <= k < |names| ==> '/' !in names[k]
    ensures Segments(JoinNames(names)) == names
  {
    if |names| == 1 {
      SegmentsOfName(names[0]);
    } else {
      SegmentsOfJoin(names[1..]);
      SegmentsCons(names[0], JoinNames(names[1..]));
      assert names == [names[0]] + names[1..];
    }
  }

  lemma {:induction false} PartsOfNames(names: seq<string>)
    requires forall k :: 0 <= k < |names| ==> ValidName(names[k])
    ensures Parts(names) == Normals(names)
  {
    if names != [] {
      PartsOfNames(names[1..]);
    }
  }

  /** Joined valid names read back as those names' components. */
  lemma ComponentsOfJoin(names: seq<string>)
    requires forall k :: 0 <= k < |names| ==> ValidName(names[k])
    ensures Components(JoinNames(names)) == Normals(names)
  {
    if names != [] {
      SegmentsOfJoin(names);
      PartsOfNames(names);
      assert JoinNames(names)[0] == names[0][0] by {
        JoinHead(names);
      }
    }
  }

  lemma JoinHead(names: seq<string>)
    requires |names| >= 1 && names[0] != []
    ensures JoinNames(names) != [] && JoinNames(names)[0] == names[0][0]
  {
  }

  lemma {:induction false} NormalizeNormals(names: seq<string>, stack: seq<string>, relative: string)
    ensures NormalizeFrom(Normals(names), stack, relative) == Ok(stack + names)
  {
    if names == [] {
      assert stack + names == stack;
    } else {
      NormalizeNormals(names[1..], stack + [names[0]], relative);
      assert stack + [names[0]] + names[1..] == stack + names;
    }
  }

  /** Normalizing already normalized names gives them back. */
  lemma NormalizeJoin(names: seq<string>)
    requires forall k :: 0 <= k < |names| ==> ValidName(names[k])
    ensures NormalizeRelative(JoinNames(names)) == Ok(names)
  {
    ComponentsOfJoin(names);
    NormalizeNormals(names, [], JoinNames(names));
    assert [] + names == names;
  }

  /** Normalization is idempotent. */
  lemma NormalizeIdempotent(relative: string)
    requires NormalizeRelative(relative).Ok?
    ensures NormalizeRelative(JoinNames(NormalizeRelative(relative).value)) == NormalizeRelative(relative)
  {
    NormalizedNamesAreValid(relative);
    NormalizeJoin(NormalizeRelative(relative).value);
  }

  lemma {:induction false} NoParentNoEscapeFrom(cs: seq<Component>, stack: seq<string>, relative: string)
    requires ParentDir !in cs
    ensures NormalizeFrom(cs, stack, relative) != Err(OutOfWorkspace(relative))
  {
    if cs != [] {
      assert cs[0] != ParentDir;
      assert ParentDir !in cs[1..] by {
        assert forall k :: 0 <= k < |cs[1..]| ==> cs[1..][k] == cs[k + 1];
      }
      match cs[0]
      case CurDir => NoParentNoEscapeFrom(cs[1..], stack, relative);
      case Normal(v) => NoParentNoEscapeFrom(cs[1..], stack + [v], relative);
      case _ =>
    }
  }

  /** Only a ".." component can take a path out of the workspace. */
  lemma NoParentNoEscape(relative: string)
    requires ParentDir !in Components(relative)
    ensures NormalizeRelative(relative) != Err(OutOfWorkspace(relative))
  {
    NoParentNoEscapeFrom(Components(relative), [], relative);
  }

  // ----- normalize_path -----

  /** `Path::file_name`: the last component, when it is a name. */
  function FileName(path: string): (r: Option<string>)
    ensures r.Some? ==> ValidName(r.value)
  {
    ComponentsAreValid(path);
    var cs := Components(path);
    if cs != [] && cs[|cs| - 1].Normal? then Some(cs[|cs| - 1].name) else None
  }

  /** `normalize_path`: blank paths and paths without a file name are refused;
      any other path is kept as written. */
  function NormalizePath(path: string): (r: Result<string, FsError>)
    ensures r.Ok? <==> Trim(path) != "" && FileName(path).Some?
    ensures r.Ok? ==> r.value == path
    ensures Trim(path) == "" ==> r == Err(EmptyPath)
    ensures Trim(path) != "" && FileName(path).None? ==> r == Err(InvalidPath(path))
  {
    if Trim(path) == "" then Err(EmptyPath)
    else if FileName(path).None? then Err(InvalidPath(path))
    else Ok(path)
  }

  /** Splitting at separators distributes over a separator. */
  lemma {:induction false} SegmentsAppend(x: string, t: string)
    requires t != [] && t[0] == '/'
    ensures Segments(x + t) == Segments(x) + Segments(t[1..])
  {
    if x == [] {
      assert x + t == t;
    } else {
      var xt := x + t;
      assert xt[0] == x[0] && xt[1..] == x[1..] + t;
      SegmentsAppend(x[1..], t);
      var a, b := Segments(x[1..]), Segments(t[1..]);
      if x[0] == '/' {
        assert [""] + (a + b) == ([""] + a) + b;
      } else {
        PrependAppend(x[0], a, b);
      }
    }
  }

  lemma PrependAppend(c: char, a: seq<string>, b: seq<string>)
    requires |a| >= 1
    ensures Prepend(c, a + b) == Prepend(c, a) + b
  {
    assert (a + b)[0] == a[0] && (a + b)[1..] == a[1..] + b;
  }

  lemma {:induction false} PartsAppend(a: seq<string>, b: seq<string>)
    ensures Parts(a + b) == Parts(a) + Parts(b)
  {
    if a == [] {
      assert a + b == b;
    } else {
      assert (a + b)[0] == a[0] && (a + b)[1..] == a[1..] + b;
      PartsAppend(a[1..], b);
      var h, x, y := Part(a[0]), Parts(a[1..]), Parts(b);
      assert Parts(a + b) == h + (x + y);
      assert h + (x + y) == (h + x) + y;
    }
  }

  /** A path that ends by going up ends in a ".." component. */
  lemma EndsInParent(p: string)
    ensures Components(p + "/..") != [] && Components(p + "/..")[|Components(p + "/..")| - 1] == ParentDir
  {
    ParentSuffix();
    SegmentsOfName("..");
    if p == [] {
      assert p + "/.." == "/..";
      RootThenParent();
    } else {
      ComponentsAppend(p, "/..");
      assert Parts([".."]) == [ParentDir];
    }
  }

  lemma RootThenParent()
    ensures Components("/..") == [RootDir, ParentDir]
  {
    ParentSuffix();
    SegmentsOfName("..");
    assert Segments("/..") == [""] + Segments("..");
  }

  lemma ParentSuffix()
    ensures "/.."[1..] == ".."
  {
  }

  /** A path ending in ".." has no file name and is refused. */
  lemma NoFileNameRefused(p: string)
    ensures NormalizePath(p + "/..") == Err(InvalidPath(p + "/.."))
  {
    EndsInParent(p);
    var path := p + "/..";
    assert !IsSpace(path[|path| - 1]);
    TrimEmptyIffBlank(path);
  }

  /** The bare root has no file name either. */
  lemma RootRefused()
    ensures NormalizePath("/") == Err(InvalidPath("/"))
  {
    assert Components("/") == [RootDir];
    TrimEmptyIffBlank("/");
  }

  /** The empty path is refused as empty. */
  lemma EmptyRefused()
    ensures NormalizePath("") == Err(EmptyPath)
  {
  }

  // ----- joining onto a base path -----

  /** `PathBuf::join` of a relative path: a separator is added unless the base
      is empty or already ends in one. */
  function JoinPath(base: string, rel: string): string {
    if base == [] || base[|base| - 1] == '/' then base + rel else base + "/" + rel
  }

  /** `p` lies under `root`, component by component (`Path::starts_with`). */
  predicate StartsWithPath(p: string, root: string) {
    Components(root) <= Components(p)
  }

  /** Components distribute over a separator after a non-empty path. */
  lemma ComponentsAppend(x: string, t: string)
    requires x != [] && t != [] && t[0] == '/'
    ensures Components(x + t) == Components(x) + Parts(Segments(t[1..]))
  {
    SegmentsAppend(x, t);
    assert (x + t)[0] == x[0];
    AssembleAppend(IsAbsolute(x), Segments(x), Segments(t[1..]));
  }

  lemma AssembleAppend(rooted: bool, a: seq<string>, b: seq<string>)
    requires |a| >= 1
    ensures Assemble(rooted, a + b) == Assemble(rooted, a) + Parts(b)
  {
    assert (a + b)[0] == a[0] && (a + b)[1..] == a[1..] + b;
    PartsAppend(a[1..], b);
    PartsAppend(a, b);
    if rooted || a[0] == "." {
      var h := if rooted then RootDir else CurDir;
      assert [h] + (Parts(a[1..]) + Parts(b)) == ([h] + Parts(a[1..])) + Parts(b);
    }
  }

  /** Valid names joined after a separator, behind a non-empty path. */
  lemma ComponentsAfter(x: string, j: string, names: seq<string>)
    requires x != [] && |names| >= 1 && forall k :: 0 <= k < |names| ==> ValidName(names[k])
    requires j == JoinNames(names)
    ensures Components(x + ("/" + j)) == Components(x) + Normals(names)
  {
    assert ("/" + j)[0] == '/' && ("/" + j)[1..] == j;
    ComponentsAppend(x, "/" + j);
    SegmentsOfJoin(names);
    PartsOfNames(names);
  }

  /** A trailing separator adds no component. */
  lemma TrailingSlash(base: string, root: string)
    requires base != [] && root == base + "/"
    ensures Components(root) == Components(base)
  {
    assert "/"[0] == '/' && "/"[1..] == "";
    ComponentsAppend(base, "/");
    assert Components(root) == Components(base) + Parts([""]);
  }

  lemma ComponentsUnderRoot(j: string, names: seq<string>)
    requires |names| >= 1 && forall k :: 0 <= k < |names| ==> ValidName(names[k])
    requires j == JoinNames(names)
    ensures Components("/" + j) == [RootDir] + Normals(names)
  {
    var p := "/" + j;
    assert p[0] == '/' && p[1..] == j;
    assert Segments(p) == [""] + Segments(j);
    SegmentsOfJoin(names);
    PartsOfNames(names);
    assert ([""] + names)[1..] == names;
  }

  /** A root joined with valid names reads back as the root's components
      followed by the names. */
  lemma ComponentsOfJoinPath(root: string, names: seq<string>)
    requires |names| >= 1 && forall k :: 0 <= k < |names| ==> ValidName(names[k])
    ensures Components(JoinPath(root, JoinNames(names))) == Components(root) + Normals(names)
  {
    var j := JoinNames(names);
    var p := JoinPath(root, j);
    if root == [] {
      JoinUnderEmpty(root, j, p, names);
    } else if root[|root| - 1] == '/' {
      JoinUnderSlash(root, j, p, names);
    } else {
      assert p == root + ("/" + j);
      ComponentsAfter(root, j, names);
    }
  }

  lemma JoinUnderEmpty(root: string, j: string, p: string, names: seq<string>)
    requires |names| >= 1 && forall k :: 0 <= k < |names| ==> ValidName(names[k])
    requires j == JoinNames(names) && root == [] && p == j
    ensures Components(p) == Components(root) + Normals(names)
  {
    ComponentsOfJoin(names);
    assert Components(root) == [];
  }

  lemma JoinUnderSlash(root: string, j: string, p: string, names: seq<string>)
    requires |names| >= 1 && forall k :: 0 <= k < |names| ==> ValidName(names[k])
    requires j == JoinNames(names) && root != [] && root[|root| - 1] == '/' && p == root + j
    ensures Components(p) == Components(root) + Normals(names)
  {
    var base := root[..|root| - 1];
    DropSlash(root);
    if base == [] {
      JoinUnderBareRoot(root, j, p, names);
    } else {
      JoinUnderBase(base, root, j, p, names);
    }
  }

  lemma DropSlash(root: string)
    requires root != [] && root[|root| - 1] == '/'
    ensures root == root[..|root| - 1] + "/"
  {
  }

  lemma Associative(a: string, b: string, c: string)
    ensures (a + b) + c == a + (b + c)
  {
  }

  lemma JoinUnderBareRoot(root: string, j: string, p: string, names: seq<string>)
    requires |names| >= 1 && forall k :: 0 <= k < |names| ==> ValidName(names[k])
    requires j == JoinNames(names) && root == "/" && p == root + j
    ensures Components(p) == Components(root) + Normals(names)
  {
    assert Components(root) == [RootDir];
    ComponentsUnderRoot(j, names);
  }

  lemma JoinUnderBase(base: string, root: string, j: string, p: string, names: seq<string>)
    requires |names| >= 1 && forall k :: 0 <= k < |names| ==> ValidName(names[k])
    requires j == JoinNames(names) && base != [] && root == base + "/" && p == root + j
    ensures Components(p) == Components(root) + Normals(names)
  {
    Associative(base, "/", j);
    ComponentsAfter(base, j, names);
    TrailingSlash(base, root);
  }

  // ----- resolve_workspace_relative_path -----

  /** `resolve_workspace_relative_path`. Whether the joined candidate exists and
      its canonical form are parameters. */
  function ResolveWorkspaceRelativePath(root: string, relativePath: Option<string>,
                                        candidateExists: bool,
                                        canonicalCandidate: Result<string, FsError>): (r: Result<string, FsError>)
    ensures Trim(relativePath.GetOr("")) == "" ==> r == Ok(root)
    ensures IsAbsolute(Trim(relativePath.GetOr(""))) ==> r == Err(InvalidRelativePath(Trim(relativePath.GetOr(""))))
  {
    var relative := Trim(relativePath.GetOr(""));
    if relative == "" then Ok(root)
    else if IsAbsolute(relative) then Err(InvalidRelativePath(relative))
    else match NormalizeRelative(relative)
      case Err(e) => Err(e)
      case Ok(names) =>
        if names == [] then Ok(root)
        else
          var candidate := JoinPath(root, JoinNames(names));
          if !candidateExists then Err(FileNotFound(candidate))
          else match canonicalCandidate
            case Err(e) => Err(e)
            case Ok(normalized) =>
              if !StartsWithPath(normalized, root) then Err(OutOfWorkspace(normalized))
              else Ok(candidate)
  }

  /** A resolved path is the root itself or lies under it: its components are
      the root's followed by proper names. */
  lemma ResolvedUnderRoot(root: string, relativePath: Option<string>, candidateExists: bool,
                          canonicalCandidate: Result<string, FsError>)
    requires ResolveWorkspaceRelativePath(root, relativePath, candidateExists, canonicalCandidate).Ok?
    ensures var p := ResolveWorkspaceRelativePath(root, relativePath, candidateExists, canonicalCandidate).value;
      p == root || (StartsWithPath(p, root) && |Components(p)| > |Components(root)| &&
        forall k :: |Components(root)| <= k < |Components(p)| ==>
          Components(p)[k].Normal? && ValidName(Components(p)[k].name))
  {
    var relative := Trim(relativePath.GetOr(""));
    if relative != "" && !IsAbsolute(relative) && NormalizeRelative(relative).Ok? {
      var names := NormalizeRelative(relative).value;
      if names != [] {
        NormalizedNamesAreValid(relative);
        ComponentsOfJoinPath(root, names);
        var cs := Components(JoinPath(root, JoinNames(names)));
        assert cs == Components(root) + Normals(names);
        NormalsAt(names);
      }
    }
  }

  lemma {:induction false} NormalsAt(names: seq<string>)
    ensures forall k :: 0 <= k < |names| ==> Normals(names)[k] == Normal(names[k])
  {
    if names != [] {
      NormalsAt(names[1..]);
    }
  }

  /** A relative path that climbs out first is refused before any probe. */
  lemma ResolveEscapeRejected(root: string, relative: string, candidateExists: bool,
                              canonicalCandidate: Result<string, FsError>)
    requires Trim(relative) == relative && relative != []
    requires Components(relative) != [] && Components(relative)[0] == ParentDir
    ensures ResolveWorkspaceRelativePath(root, Some(relative), candidateExists, canonicalCandidate)
      == Err(OutOfWorkspace(relative))
  {
    EscapeRejected(relative);
  }

  /** Climbing out of the workspace with `"../outside"` is refused. */
  lemma ResolveOutsideRejected(root: string, candidateExists: bool, canonicalCandidate: Result<string, FsError>)
    ensures ResolveWorkspaceRelativePath(root, Some("../outside"), candidateExists, canonicalCandidate)
      == Err(OutOfWorkspace("../outside"))
  {
    OutsideStartsWithParent();
    OutsideTrimmed();
    ResolveEscapeRejected(root, "../outside", candidateExists, canonicalCandidate);
  }

  lemma OutsideTrimmed()
    ensures Trim("../outside") == "../outside"
  {
    TrimIdentity("../outside");
  }

  // ----- relative_path_string -----

  /** How a component is written (`Component::as_os_str`). */
  function ComponentText(c: Component): string {
    match c
    case Prefix(t) => t
    case RootDir => "/"
    case CurDir => "."
    case ParentDir => ".."
    case Normal(n) => n
  }

  function Texts(cs: seq<Component>): (r: seq<string>)
    ensures |r| == |cs|
  {
    if cs == [] then [] else [ComponentText(cs[0])] + Texts(cs[1..])
  }

  /** `relative_path_string`: the components of `path` after those of `root`,
      joined with '/'; a path outside the root is refused. */
  function RelativePathString(root: string, path: string): (r: Result<string, FsError>)
    ensures r.Err? <==> !StartsWithPath(path, root)
    ensures r.Err? ==> r == Err(OutOfWorkspace(path))
  {
    var rc, pc := Components(root), Components(path);
    if rc <= pc then Ok(JoinNames(Texts(pc[|rc|..]))) else Err(OutOfWorkspace(path))
  }

  lemma {:induction false} TextsOfNormals(names: seq<string>)
    ensures Texts(Normals(names)) == names
  {
    if names != [] {
      TextsOfNormals(names[1..]);
    }
  }

  /** The root itself is the empty relative path. */
  lemma RelativeOfRoot(root: string)
    ensures RelativePathString(root, root) == Ok("")
  {
  }

  /** Printing a path relative to the root undoes joining names onto the root. */
  lemma RelativeOfJoinPath(root: string, names: seq<string>)
    requires |names| >= 1 && forall k :: 0 <= k < |names| ==> ValidName(names[k])
    ensures RelativePathString(root, JoinPath(root, JoinNames(names))) == Ok(JoinNames(names))
  {
    ComponentsOfJoinPath(root, names);
    var rc := Components(root);
    assert (rc + Normals(names))[|rc|..] == Normals(names);
    TextsOfNormals(names);
  }

  // ----- is_markdown_file -----

  /** The position of the last '.' in a name. */
  function LastDot(name: string): (r: Option<nat>)
    ensures r.Some? ==> (r.value < |name| && name[r.value] == '.' &&
      forall k :: r.value < k < |name| ==> name[k] != '.')
    ensures r.None? ==> forall k :: 0 <= k < |name| ==> name[k] != '.'
  {
    if name == [] then None
    else if name[|name| - 1] == '.' then Some(|name| - 1)
    else LastDot(name[..|name| - 1])
  }

  /** The extension of a file name, after its last '.' (`rsplit_file_at_dot`):
      none for "..", for a name without a dot and for a name whose only dot
      leads it. */
  function NameExtension(name: string): Option<string> {
    if name == ".." then None
    else match LastDot(name)
      case None => None
      case Some(i) => if i == 0 then None else Some(name[i + 1..])
  }

  /** `Path::extension`. */
  function Extension(path: string): Option<string> {
    match FileName(path)
    case None => None
    case Some(name) => NameExtension(name)
  }

  /** `is_markdown_file`. */
  function IsMarkdownFile(path: string): bool {
    match Extension(path)
    case None => false
    case Some(ext) => ToLower(ext) == "md" || ToLower(ext) == "markdown"
  }

  /** A file named `stem.ext` is Markdown exactly when `ext`, lowercased, is
      "md" or "markdown". */
  lemma MarkdownIff(path: string, stem: string, ext: string)
    requires stem != [] && '.' !in ext
    requires FileName(path) == Some(stem + "." + ext)
    ensures IsMarkdownFile(path) <==> ToLower(ext) == "md" || ToLower(ext) == "markdown"
  {
    var name := stem + "." + ext;
    assert name[|stem|] == '.';
    assert name[|stem| + 1..] == ext;
    assert LastDot(name) == Some(|stem|) by {
      LastDotAt(name, |stem|);
    }
  }

  lemma LastDotAt(name: string, i: nat)
    requires i < |name| && name[i] == '.' && forall k :: i < k < |name| ==> name[k] != '.'
    ensures LastDot(name) == Some(i)
  {
  }

  /** A name without a dot has no extension and is not Markdown. */
  lemma NoDotNotMarkdown(path: string)
    requires FileName(path).Some? && '.' !in FileName(path).value
    ensures !IsMarkdownFile(path)
  {
  }

  /** A name whose only dot is its first character (a hidden file such as ".md")
      has no extension. */
  lemma HiddenNotMarkdown(path: string, ext: string)
    requires '.' !in ext && FileName(path) == Some("." + ext)
    ensures !IsMarkdownFile(path)
  {
    assert LastDot("." + ext) == Some(0) by {
      LastDotAt("." + ext, 0);
    }
  }
}
