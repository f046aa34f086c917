/** Resolution of an `import` string of a proto file to the URI of the file it names,
    searching the import roots configured in the project's path preferences
    (the plugin's `MultipleDirectoriesFileResolverStrategy`).

    The search has two passes. The first tries every configured root in listed order,
    composing `prefix + root + "/" + import`, where the prefix is the platform-resource
    prefix for a workspace root and the file prefix otherwise; the first composed URI
    that exists wins. While doing so it collects the workspace roots; the second pass
    maps each of them, in order, to its directory in the file system and tries again
    with the file prefix. */
module ImportResolution {
  import opened Options

  /** The path separator placed between the root and the import string. */
  const Separator: char := '/'

  /** An import root as configured: its text and whether it names a workspace
      directory (rather than a directory of the file system). */
  datatype DirectoryPath = DirectoryPath(value: string, isWorkspacePath: bool)

  /** What the strategy asks of code outside it: the two URI prefixes, the
      existence check on a URI, and the mapping of a workspace directory to its
      location in the file system. */
  datatype Collaborators = Collaborators(
    platformResourcePrefix: string,
    filePrefix: string,
    uriExists: string -> bool,
    directoryLocation: string -> string)

  /** The prefix used for a root: platform-resource for workspace roots, file otherwise. */
  function PrefixFor(env: Collaborators, isWorkspacePath: bool): string
  {
    if isWorkspacePath then env.platformResourcePrefix else env.filePrefix
  }

  /** The URI composed for an import under a root. */
  function Uri(env: Collaborators, importUri: string, importRootPath: string, isWorkspacePath: bool): string
  {
    PrefixFor(env, isWorkspacePath) + importRootPath + [Separator] + importUri
  }

  /** A URI if it exists, nothing otherwise. */
  function ResolveExisting(env: Collaborators, uri: string): (r: Option<string>)
    ensures r.Some? <==> env.uriExists(uri)
    ensures r.Some? ==> r.value == uri
  {
    if env.uriExists(uri) then Some(uri) else None
  }

  /** The first-pass candidate for a configured root. */
  function DirectCandidate(env: Collaborators, importUri: string, path: DirectoryPath): string
  {
    Uri(env, importUri, path.value, path.isWorkspacePath)
  }

  /** The second-pass candidate for a workspace root: its file-system location. */
  function FileSystemCandidate(env: Collaborators, importUri: string, root: string): string
  {
    Uri(env, importUri, env.directoryLocation(root), false)
  }

  /** The first pass for one root. */
  function ResolveInRoot(env: Collaborators, importUri: string, path: DirectoryPath): Option<string>
  {
    ResolveExisting(env, DirectCandidate(env, importUri, path))
  }

  /** The second pass for one workspace root. */
  function ResolveInFileSystem(env: Collaborators, importUri: string, root: string): Option<string>
  {
    ResolveExisting(env, FileSystemCandidate(env, importUri, root))
  }

  /** The first-pass candidates, one per root, in listed order. */
  function DirectCandidates(env: Collaborators, importUri: string, roots: seq<DirectoryPath>): (r: seq<string>)
    ensures |r| == |roots|
    ensures forall i :: 0 <= i < |roots| ==> r[i] == DirectCandidate(env, importUri, roots[i])
  {
    if roots == [] then []
    else [DirectCandidate(env, importUri, roots[0])] + DirectCandidates(env, importUri, roots[1..])
  }

  /** The second-pass candidates, one per workspace root, in order. */
  function FileSystemCandidates(env: Collaborators, importUri: string, dirs: seq<string>): (r: seq<string>)
    ensures |r| == |dirs|
    ensures forall i :: 0 <= i < |dirs| ==> r[i] == FileSystemCandidate(env, importUri, dirs[i])
  {
    if dirs == [] then []
    else [FileSystemCandidate(env, importUri, dirs[0])] + FileSystemCandidates(env, importUri, dirs[1..])
  }

  /** The values of the workspace roots, in their relative order: the directories the
      first pass sets aside for the second. */
  function WorkspaceRoots(roots: seq<DirectoryPath>): (r: seq<string>)
    ensures |r| <= |roots|
  {
    if roots == [] then []
    else (if roots[0].isWorkspacePath then [roots[0].value] else []) + WorkspaceRoots(roots[1..])
  }

  /** The first candidate that exists, searching in order. */
  function FirstExisting(env: Collaborators, candidates: seq<string>): (r: Option<string>)
    ensures r.Some? ==> r.value in candidates && env.uriExists(r.value)
  {
    if candidates == [] then None
    else if env.uriExists(candidates[0]) then Some(candidates[0])
    else FirstExisting(env, candidates[1..])
  }

  /** What the resolver returns for an import: a first-pass hit if there is one,
      else a second-pass hit over the workspace roots, else nothing. */
  function Resolution(env: Collaborators, importUri: string, roots: seq<DirectoryPath>): Option<string>
  {
    match FirstExisting(env, DirectCandidates(env, importUri, roots))
    case Some(uri) => Some(uri)
    case None => FirstExisting(env, FileSystemCandidates(env, importUri, WorkspaceRoots(roots)))
  }

  /** The strategy itself: two loops with early exits, and a list of workspace roots
      built up during the first. */
  method ResolveUri(env: Collaborators, importUri: string, roots: seq<DirectoryPath>) returns (resolved: Option<string>)
    ensures resolved == Resolution(env, importUri, roots)
  {
    var fileSystemDirectories: seq<string> := [];
    var i := 0;
    while i < |roots|
      invariant 0 <= i <= |roots|
      invariant forall j :: 0 <= j < i ==> !env.uriExists(DirectCandidate(env, importUri, roots[j]))
      invariant fileSystemDirectories == WorkspaceRoots(roots[..i])
    {
      var path := roots[i];
      var r := ResolveInRoot(env, importUri, path);
      if r.Some? {
        FirstExistingFindsEarliest(env, DirectCandidates(env, importUri, roots), i);
        return r;
      }
      if path.isWorkspacePath {
        fileSystemDirectories := fileSystemDirectories + [path.value];
      }
      WorkspaceRootsAppend(roots[..i], [path]);
      assert roots[..i + 1] == roots[..i] + [path];
      i := i + 1;
    }
    FirstExistingNone(env, DirectCandidates(env, importUri, roots));
    assert roots[..i] == roots;
    var k := 0;
    while k < |fileSystemDirectories|
      invariant 0 <= k <= |fileSystemDirectories|
      invariant forall m :: 0 <= m < k ==> !env.uriExists(FileSystemCandidate(env, importUri, fileSystemDirectories[m]))
    {
      var root := fileSystemDirectories[k];
      var r := ResolveInFileSystem(env, importUri, root);
      if r.Some? {
        FirstExistingFindsEarliest(env, FileSystemCandidates(env, importUri, fileSystemDirectories), k);
        return r;
      }
      k := k + 1;
    }
    FirstExistingNone(env, FileSystemCandidates(env, importUri, fileSystemDirectories));
    return None;
  }

  // ---------------------------------------------------------------------------
  // Properties of the search

  /** The search returns the candidate at index `i` when it exists and none before it does. */
  lemma {:induction false} FirstExistingFindsEarliest(env: Collaborators, candidates: seq<string>, i: nat)
    requires i < |candidates| && env.uriExists(candidates[i])
    requires forall j :: 0 <= j < i ==> !env.uriExists(candidates[j])
    ensures FirstExisting(env, candidates) == Some(candidates[i])
  {
    if i > 0 {
      FirstExistingFindsEarliest(env, candidates[1..], i - 1);
    }
  }

  /** The search finds nothing exactly when no candidate exists. */
  lemma {:induction false} FirstExistingNone(env: Collaborators, candidates: seq<string>)
    ensures FirstExisting(env, candidates) == None <==> forall j :: 0 <= j < |candidates| ==> !env.uriExists(candidates[j])
  {
    if candidates != [] {
      FirstExistingNone(env, candidates[1..]);
      if !env.uriExists(candidates[0]) {
        forall j | 0 <= j < |candidates| && (forall j' :: 0 <= j' < |candidates| - 1 ==> !env.uriExists(candidates[1..][j']))
          ensures !env.uriExists(candidates[j])
        {
          if j > 0 { assert candidates[j] == candidates[1..][j - 1]; }
        }
      }
    }
  }

  /** A hit is the earliest existing candidate: the one returned exists, and no
      candidate before it does. */
  lemma {:induction false} FirstExistingIsEarliest(env: Collaborators, candidates: seq<string>)
    requires FirstExisting(env, candidates).Some?
    ensures exists i :: 0 <= i < |candidates| && candidates[i] == FirstExisting(env, candidates).value
                        && forall j :: 0 <= j < i ==> !env.uriExists(candidates[j])
  {
    if !env.uriExists(candidates[0]) {
      FirstExistingIsEarliest(env, candidates[1..]);
      var i :| 0 <= i < |candidates[1..]| && candidates[1..][i] == FirstExisting(env, candidates[1..]).value
        && forall j :: 0 <= j < i ==> !env.uriExists(candidates[1..][j]);
      assert candidates[i + 1] == FirstExisting(env, candidates).value;
      forall j | 0 <= j < i + 1 ensures !env.uriExists(candidates[j]) {
        if j > 0 { assert candidates[j] == candidates[1..][j - 1]; }
      }
    }
  }

  /** Searching a concatenation searches the first part, and the second only when the
      first finds nothing: later candidates are never consulted after a hit. */
  lemma {:induction false} FirstExistingAppend(env: Collaborators, a: seq<string>, b: seq<string>)
    ensures FirstExisting(env, a + b) ==
      match FirstExisting(env, a)
      case Some(uri) => Some(uri)
      case None => FirstExisting(env, b)
  {
    if a == [] {
      assert a + b == b;
    } else {
      assert (a + b)[0] == a[0];
      assert (a + b)[1..] == a[1..] + b;
      FirstExistingAppend(env, a[1..], b);
    }
  }

  /** Collecting workspace roots distributes over concatenation, so the collected list
      keeps the roots' relative order. */
  lemma {:induction false} WorkspaceRootsAppend(a: seq<DirectoryPath>, b: seq<DirectoryPath>)
    ensures WorkspaceRoots(a + b) == WorkspaceRoots(a) + WorkspaceRoots(b)
  {
    if a == [] {
      assert a + b == b;
    } else {
      assert (a + b)[0] == a[0];
      assert (a + b)[1..] == a[1..] + b;
      WorkspaceRootsAppend(a[1..], b);
    }
  }

  /** Exactly the workspace roots are retried: a directory is collected if and only if
      some workspace root has it as its value. */
  lemma {:induction false} WorkspaceRootsMembers(roots: seq<DirectoryPath>, d: string)
    ensures d in WorkspaceRoots(roots) <==>
      exists i :: 0 <= i < |roots| && roots[i].isWorkspacePath && roots[i].value == d
  {
    if roots != [] {
      WorkspaceRootsMembers(roots[1..], d);
      if exists i :: 0 <= i < |roots| && roots[i].isWorkspacePath && roots[i].value == d {
        var i :| 0 <= i < |roots| && roots[i].isWorkspacePath && roots[i].value == d;
        if i > 0 { assert roots[1..][i - 1] == roots[i]; }
      }
      if exists i :: 0 <= i < |roots[1..]| && roots[1..][i].isWorkspacePath && roots[1..][i].value == d {
        var i :| 0 <= i < |roots[1..]| && roots[1..][i].isWorkspacePath && roots[1..][i].value == d;
        assert roots[i + 1] == roots[1..][i];
      }
    }
  }

  /** With no workspace root there is no second pass. */
  lemma {:induction false} NoWorkspaceRootsNoRetry(roots: seq<DirectoryPath>)
    requires forall i :: 0 <= i < |roots| ==> !roots[i].isWorkspacePath
    ensures WorkspaceRoots(roots) == []
  {
    if roots != [] {
      NoWorkspaceRootsNoRetry(roots[1..]);
    }
  }

  /** The two passes are one first-match search over the first-pass candidates
      followed by the second-pass candidates: the first pass takes precedence. */
  lemma ResolutionIsOneSearch(env: Collaborators, importUri: string, roots: seq<DirectoryPath>)
    ensures Resolution(env, importUri, roots) ==
      FirstExisting(env, DirectCandidates(env, importUri, roots)
                         + FileSystemCandidates(env, importUri, WorkspaceRoots(roots)))
  {
    FirstExistingAppend(env, DirectCandidates(env, importUri, roots),
                        FileSystemCandidates(env, importUri, WorkspaceRoots(roots)));
  }

  /** A resolved URI is always one whose existence check succeeded. */
  lemma ResolvedExists(env: Collaborators, importUri: string, roots: seq<DirectoryPath>)
    ensures Resolution(env, importUri, roots).Some? ==> env.uriExists(Resolution(env, importUri, roots).value)
  {
  }

  /** The earliest root whose composed URI exists decides the result. */
  lemma FirstPassEarliestRootWins(env: Collaborators, importUri: string, roots: seq<DirectoryPath>, i: nat)
    requires i < |roots| && env.uriExists(DirectCandidate(env, importUri, roots[i]))
    requires forall j :: 0 <= j < i ==> !env.uriExists(DirectCandidate(env, importUri, roots[j]))
    ensures Resolution(env, importUri, roots) == Some(DirectCandidate(env, importUri, roots[i]))
  {
    FirstExistingFindsEarliest(env, DirectCandidates(env, importUri, roots), i);
  }

  /** When no first-pass candidate exists, the result is the earliest workspace root
      whose file-system candidate exists. */
  lemma SecondPassEarliestWorkspaceRootWins(env: Collaborators, importUri: string, roots: seq<DirectoryPath>, k: nat)
    requires forall j :: 0 <= j < |roots| ==> !env.uriExists(DirectCandidate(env, importUri, roots[j]))
    requires k < |WorkspaceRoots(roots)|
    requires env.uriExists(FileSystemCandidate(env, importUri, WorkspaceRoots(roots)[k]))
    requires forall m :: 0 <= m < k ==> !env.uriExists(FileSystemCandidate(env, importUri, WorkspaceRoots(roots)[m]))
    ensures Resolution(env, importUri, roots) == Some(FileSystemCandidate(env, importUri, WorkspaceRoots(roots)[k]))
  {
    FirstExistingNone(env, DirectCandidates(env, importUri, roots));
    FirstExistingFindsEarliest(env, FileSystemCandidates(env, importUri, WorkspaceRoots(roots)), k);
  }

  /** Any result is either the first-pass candidate of a root, when no earlier root
      matched, or, when no root matched at all, the file-prefixed candidate of a
      workspace root. */
  lemma {:induction false} ResolutionShape(env: Collaborators, importUri: string, roots: seq<DirectoryPath>)
    requires Resolution(env, importUri, roots).Some?
    ensures var uri := Resolution(env, importUri, roots).value;
      || (exists i :: 0 <= i < |roots| && uri == DirectCandidate(env, importUri, roots[i])
            && forall j :: 0 <= j < i ==> !env.uriExists(DirectCandidate(env, importUri, roots[j])))
      || ((forall j :: 0 <= j < |roots| ==> !env.uriExists(DirectCandidate(env, importUri, roots[j])))
          && exists d :: d in WorkspaceRoots(roots) && uri == FileSystemCandidate(env, importUri, d))
  {
    var direct := DirectCandidates(env, importUri, roots);
    var fs := FileSystemCandidates(env, importUri, WorkspaceRoots(roots));
    FirstExistingNone(env, direct);
    if FirstExisting(env, direct).Some? {
      FirstExistingIsEarliest(env, direct);
    } else {
      FirstExistingIsEarliest(env, fs);
      var k :| 0 <= k < |fs| && fs[k] == FirstExisting(env, fs).value;
      assert WorkspaceRoots(roots)[k] in WorkspaceRoots(roots);
    }
  }

  /** The result is nothing exactly when no candidate of either pass exists; in
      particular with no roots at all. */
  lemma NothingResolves(env: Collaborators, importUri: string, roots: seq<DirectoryPath>)
    ensures Resolution(env, importUri, roots) == None <==>
      && (forall j :: 0 <= j < |roots| ==> !env.uriExists(DirectCandidate(env, importUri, roots[j])))
      && (forall d :: d in WorkspaceRoots(roots) ==> !env.uriExists(FileSystemCandidate(env, importUri, d)))
  {
    var fs := FileSystemCandidates(env, importUri, WorkspaceRoots(roots));
    FirstExistingNone(env, DirectCandidates(env, importUri, roots));
    FirstExistingNone(env, fs);
    forall d | d in WorkspaceRoots(roots)
      ensures exists m :: 0 <= m < |fs| && fs[m] == FileSystemCandidate(env, importUri, d)
    {
      var m :| 0 <= m < |WorkspaceRoots(roots)| && WorkspaceRoots(roots)[m] == d;
      assert fs[m] == FileSystemCandidate(env, importUri, d);
    }
  }

  /** With no configured roots nothing resolves. */
  lemma NoRootsNothingResolves(env: Collaborators, importUri: string)
    ensures Resolution(env, importUri, []) == None
  {
  }

  // ---------------------------------------------------------------------------
  // Shape of the composed URIs

  /** A composed URI reads back as the prefix chosen by the root's kind, then the
      root, then the separator, then the import string. */
  lemma UriParts(env: Collaborators, importUri: string, importRootPath: string, isWorkspacePath: bool)
    ensures var r := Uri(env, importUri, importRootPath, isWorkspacePath);
            var n := |PrefixFor(env, isWorkspacePath)|;
      && |r| == n + |importRootPath| + 1 + |importUri|
      && r[..n] == PrefixFor(env, isWorkspacePath)
      && r[n..n + |importRootPath|] == importRootPath
      && r[n + |importRootPath|] == Separator
      && r[n + |importRootPath| + 1..] == importUri
  {
    var prefix := PrefixFor(env, isWorkspacePath);
    var r := Uri(env, importUri, importRootPath, isWorkspacePath);
    assert r == prefix + importRootPath + [Separator] + importUri;
    assert r[..|prefix|] == prefix;
    assert r[|prefix|..|prefix| + |importRootPath|] == importRootPath;
    assert r[|prefix| + |importRootPath| + 1..] == importUri;
  }

  /** A second-pass candidate always carries the file prefix followed by the
      file-system location of the workspace root, whatever kind the root had. */
  lemma SecondPassUsesFilePrefix(env: Collaborators, importUri: string, root: string)
    ensures var r := FileSystemCandidate(env, importUri, root);
            var n := |env.filePrefix|;
            var location := env.directoryLocation(root);
      && |r| > n + |location|
      && r[..n] == env.filePrefix
      && r[n..n + |location|] == location
  {
    UriParts(env, importUri, env.directoryLocation(root), false);
  }
}
