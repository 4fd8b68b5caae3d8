/**
 * The Nexus storage the aggregator works on, and the helpers of NexusUtils:
 * link creation and deletion, the reversed path segments of a file, the
 * relative path between two files, and the hidden-path test.
 *
 * Paths are Unix paths: the file separator is `/`.
 */
module NexusUtils {
  import opened Outcomes
  import opened Text

  /** A stored file, as the sequence of its lines. */
  type Content = seq<string>

  /** The item context (request attributes) carried by a stored item. */
  type Context = map<string, string>

  /** RepositoryItemUid: the repository and path an item is stored under. */
  datatype Uid = Uid(repositoryId: string, path: string)

  /** A StorageItem: a file, or a link that references another item's uid. */
  datatype Item =
    | FileItem(content: Content, context: Context)
    | LinkItem(target: Uid, context: Context)

  /**
   * A hosted repository: its id, the base directory of its file-system
   * storage (None when its local storage is not a file-system one) and its
   * items by path.
   */
  datatype Repository = Repository(id: string, baseDir: Option<string>, items: map<string, Item>)

  const FileSeparator := "/"

  /** Repository.retrieveItem, which fails when nothing is stored at `path`. */
  function RetrieveItem(repo: Repository, path: string): (r: Result<Item>)
    ensures r.Ok? <==> path in repo.items
    ensures r.Ok? ==> r.value == repo.items[path]
    ensures r.Throws? ==> r.exception == ItemNotFound
  {
    if path in repo.items then Ok(repo.items[path]) else Throws(ItemNotFound)
  }

  /** Item.getRepositoryItemUid of the item stored at `path` in `repo`. */
  function UidOf(repo: Repository, path: string): Uid {
    Uid(repo.id, path)
  }

  /**
   * createLink: stores at `linkPath` a link to the uid of `item` (found at
   * `itemPath`), whose context is a copy of the item's context.
   */
  function CreateLink(repo: Repository, itemPath: string, item: Item, linkPath: string): (r: Repository)
    ensures r.id == repo.id && r.baseDir == repo.baseDir
    ensures linkPath in r.items && r.items[linkPath].LinkItem?
    ensures r.items[linkPath].target == UidOf(repo, itemPath)
    ensures r.items[linkPath].context == item.context
    ensures r.items.Keys == repo.items.Keys + {linkPath}
    ensures forall p | p in repo.items && p != linkPath :: r.items[p] == repo.items[p]
  {
    repo.(items := repo.items[linkPath := LinkItem(UidOf(repo, itemPath), item.context)])
  }

  /** deleteLink, whose definition is not part of this model: removes the item at `linkPath`. */
  function DeleteLink(repo: Repository, linkPath: string): (r: Repository)
    ensures r.id == repo.id && r.baseDir == repo.baseDir
    ensures r.items.Keys == repo.items.Keys - {linkPath}
    ensures forall p | p in r.items :: r.items[p] == repo.items[p]
  {
    repo.(items := repo.items - {linkPath})
  }

  /** Deleting a link just created at a free path gives back the original store. */
  lemma DeleteUndoesCreate(repo: Repository, itemPath: string, item: Item, linkPath: string)
    requires linkPath !in repo.items
    ensures DeleteLink(CreateLink(repo, itemPath, item, linkPath), linkPath) == repo
  {
    assert DeleteLink(CreateLink(repo, itemPath, item, linkPath), linkPath).items == repo.items;
  }

  // ----- java.io.File names and parents -----

  /** Length of the prefix of an absolute path (`/`), 0 for a relative one. */
  function PrefixLength(p: string): nat {
    if |p| > 0 && p[0] == '/' then 1 else 0
  }

  /** String.lastIndexOf('/'). */
  function LastSlash(p: string): (r: int)
    ensures -1 <= r < |p|
    ensures r >= 0 ==> p[r] == '/'
    ensures forall k :: r < k < |p| ==> p[k] != '/'
    decreases |p|
  {
    if |p| == 0 then -1
    else if p[|p| - 1] == '/' then |p| - 1
    else LastSlash(p[..|p| - 1])
  }

  /** File.getName. */
  function Name(p: string): string {
    var i := LastSlash(p);
    if i < PrefixLength(p) then p[PrefixLength(p)..] else p[i + 1..]
  }

  /** File.getParent, with None for null. */
  function Parent(p: string): (r: Option<string>)
    ensures r.Some? ==> |r.value| < |p|
  {
    var i := LastSlash(p);
    var n := PrefixLength(p);
    if i < n then (if n > 0 && |p| > n then Some(p[..n]) else None)
    else Some(p[..i])
  }

  /** The names of a file and of each of its ancestors, leaf first. */
  function ReverseSegments(p: string): (r: seq<string>)
    ensures |r| >= 1 && r[0] == Name(p)
    decreases |p|
  {
    [Name(p)] + match Parent(p) { case None => [] case Some(q) => ReverseSegments(q) }
  }

  /** The segments still to be collected from the file `segment`, if any. */
  function Remaining(segment: Option<string>): seq<string> {
    match segment { case None => [] case Some(q) => ReverseSegments(q) }
  }

  /**
   * getReversePathSegments on a canonical path: collects getName() of the
   * file and of each getParentFile() until there is none.
   */
  method GetReversePathSegments(canonical: string) returns (segments: seq<string>)
    ensures |segments| >= 1 && segments[0] == Name(canonical)
    ensures segments == ReverseSegments(canonical)
  {
    segments := [];
    var segment := Some(canonical);
    while segment.Some?
      invariant segments + Remaining(segment) == ReverseSegments(canonical)
      decreases if segment.Some? then |segment.value| + 1 else 0
    {
      CollectName(segments, segment.value);
      segments := segments + [Name(segment.value)];
      segment := Parent(segment.value);
    }
  }

  /** One step of getReversePathSegments: the name of `f` moves from the remaining segments to the collected ones. */
  lemma CollectName(segments: seq<string>, f: string)
    ensures segments + Remaining(Some(f)) == segments + [Name(f)] + Remaining(Parent(f))
  {
    var rest := Remaining(Parent(f));
    assert Remaining(Some(f)) == [Name(f)] + rest;
    assert segments + ([Name(f)] + rest) == segments + [Name(f)] + rest;
  }

  /** The last separator of `base + "/" + rel` is the last one of `rel`, or the joining one. */
  lemma LastSlashOfJoin(base: string, rel: string)
    ensures LastSlash(base + "/" + rel) == if LastSlash(rel) < 0 then |base| else |base| + 1 + LastSlash(rel)
  {
    var p := base + "/" + rel;
    var i := LastSlash(rel);
    var idx := if i < 0 then |base| else |base| + 1 + i;
    assert p[idx] == '/';
    forall k | idx < k < |p|
      ensures p[k] != '/'
    {
      assert p[k] == rel[k - |base| - 1];
    }
  }

  /** Name and parent of `base + "/" + rel`, and of `rel`, by the last separator of `rel`. */
  lemma NameAndParentOfJoin(base: string, rel: string)
    requires |base| >= 1 && base[0] == '/'
    requires |rel| == 0 || rel[0] != '/'
    ensures var p := base + "/" + rel; var i := LastSlash(rel);
      if i < 0 then Name(p) == rel && Parent(p) == Some(base) && Name(rel) == rel && Parent(rel) == None
      else 0 < i && Name(p) == Name(rel) && Parent(p) == Some(base + "/" + rel[..i]) && Parent(rel) == Some(rel[..i])
  {
    LastSlashOfJoin(base, rel);
    if LastSlash(rel) < 0 {
      JoinWithoutSeparator(base, rel);
    } else {
      JoinWithSeparator(base, rel);
    }
  }

  /** The case of NameAndParentOfJoin where `rel` holds no separator. */
  lemma JoinWithoutSeparator(base: string, rel: string)
    requires |base| >= 1 && base[0] == '/'
    requires LastSlash(rel) < 0
    requires LastSlash(base + "/" + rel) == |base|
    ensures var p := base + "/" + rel;
      Name(p) == rel && Parent(p) == Some(base) && Name(rel) == rel && Parent(rel) == None
  {
    var p := base + "/" + rel;
    assert PrefixLength(p) == 1 && PrefixLength(rel) == 0;
    assert p[..|base|] == base;
    assert p[|base| + 1..] == rel;
  }

  /** The case of NameAndParentOfJoin where the last separator of `rel` is at `i`. */
  lemma JoinWithSeparator(base: string, rel: string)
    requires |base| >= 1 && base[0] == '/'
    requires |rel| == 0 || rel[0] != '/'
    requires 0 <= LastSlash(rel)
    requires LastSlash(base + "/" + rel) == |base| + 1 + LastSlash(rel)
    ensures var p := base + "/" + rel; var i := LastSlash(rel);
      0 < i && Name(p) == Name(rel) && Parent(p) == Some(base + "/" + rel[..i]) && Parent(rel) == Some(rel[..i])
  {
    var p := base + "/" + rel;
    var i := LastSlash(rel);
    assert rel[i] == '/';
    assert p[0] == '/';
    NameAndParentAt(p, |base| + 1 + i);
    NameAndParentAt(rel, i);
    SlicesOfAppend(base + "/", rel, i + 1);
    SlicesOfAppend(base + "/", rel, i);
  }

  /** Name and parent of a path whose last separator, past its prefix, is at `i`. */
  lemma NameAndParentAt(p: string, i: int)
    requires LastSlash(p) == i && PrefixLength(p) <= i
    ensures Name(p) == p[i + 1..] && Parent(p) == Some(p[..i])
  {
  }

  /** Slicing `a + b` at a position inside `b`. */
  lemma SlicesOfAppend(a: string, b: string, k: nat)
    requires k <= |b|
    ensures (a + b)[|a| + k..] == b[k..]
    ensures (a + b)[..|a| + k] == a + b[..k]
  {
  }

  /** The segments of `base + "/" + rel` are those of `rel`, then those of `base`. */
  lemma {:induction false} SegmentsOfChild(base: string, rel: string)
    requires |base| >= 1 && base[0] == '/'
    requires |rel| == 0 || rel[0] != '/'
    ensures ReverseSegments(base + "/" + rel) == ReverseSegments(rel) + ReverseSegments(base)
    decreases |rel|
  {
    var i := LastSlash(rel);
    if i < 0 {
      SegmentsOfLeafChild(base, rel);
    } else {
      SegmentsOfChild(base, rel[..i]);
      SegmentsOfChildStep(base, rel, i);
    }
  }

  /** SegmentsOfChild for a `rel` without separator: one more segment. */
  lemma SegmentsOfLeafChild(base: string, rel: string)
    requires |base| >= 1 && base[0] == '/'
    requires |rel| == 0 || rel[0] != '/'
    requires LastSlash(rel) < 0
    ensures ReverseSegments(base + "/" + rel) == ReverseSegments(rel) + ReverseSegments(base)
  {
    NameAndParentOfJoin(base, rel);
    assert ReverseSegments(base + "/" + rel) == [rel] + ReverseSegments(base);
    assert ReverseSegments(rel) == [rel];
  }

  /** SegmentsOfChild for a `rel` whose last separator is at `i`, from the case of `rel[..i]`. */
  lemma SegmentsOfChildStep(base: string, rel: string, i: int)
    requires |base| >= 1 && base[0] == '/'
    requires |rel| == 0 || rel[0] != '/'
    requires i == LastSlash(rel) && 0 <= i
    requires ReverseSegments(base + "/" + rel[..i]) == ReverseSegments(rel[..i]) + ReverseSegments(base)
    ensures ReverseSegments(base + "/" + rel) == ReverseSegments(rel) + ReverseSegments(base)
  {
    NameAndParentOfJoin(base, rel);
    assert ReverseSegments(base + "/" + rel) == [Name(rel)] + (ReverseSegments(rel[..i]) + ReverseSegments(base));
    assert ReverseSegments(rel) == [Name(rel)] + ReverseSegments(rel[..i]);
  }

  // ----- getRelativePath -----

  /** The last `n` segments of the two reversed arrays (their root ends) agree. */
  predicate AgreeAtRoot(f: seq<string>, t: seq<string>, n: nat)
    requires n <= |f| && n <= |t|
  {
    f[|f| - n..] == t[|t| - n..]
  }

  /**
   * The comparison of two reversed segment arrays from their root ends,
   * starting after `k` segments: where it stops, the next pair (if both have
   * one) differs, and when the last `k` agree, so do the last `n`.
   */
  function CommonRootFrom(f: seq<string>, t: seq<string>, k: nat): (n: nat)
    requires k <= |f| && k <= |t|
    ensures k <= n <= |f| && n <= |t|
    ensures AgreeAtRoot(f, t, k) ==> AgreeAtRoot(f, t, n)
    ensures n < |f| && n < |t| ==> f[|f| - 1 - n] != t[|t| - 1 - n]
    decreases |f| - k
  {
    if k < |f| && k < |t| && f[|f| - 1 - k] == t[|t| - 1 - k] then
      AgreeOneMore(f, t, k);
      CommonRootFrom(f, t, k + 1)
    else k
  }

  /** An agreeing pair after `n` segments moves the comparison on by one. */
  lemma CommonRootFromStep(f: seq<string>, t: seq<string>, n: nat)
    requires n < |f| && n < |t| && f[|f| - 1 - n] == t[|t| - 1 - n]
    ensures CommonRootFrom(f, t, n + 1) == CommonRootFrom(f, t, n)
  {
  }

  /** The comparison stops at `n` when either array runs out or the pair differs. */
  lemma CommonRootFromStop(f: seq<string>, t: seq<string>, n: nat)
    requires n <= |f| && n <= |t|
    requires n == |f| || n == |t| || f[|f| - 1 - n] != t[|t| - 1 - n]
    ensures CommonRootFrom(f, t, n) == n
  {
  }

  /** Agreement on the last `n` segments and on the pair before them is agreement on `n + 1`. */
  lemma AgreeOneMore(f: seq<string>, t: seq<string>, n: nat)
    requires n < |f| && n < |t|
    requires f[|f| - 1 - n] == t[|t| - 1 - n]
    ensures AgreeAtRoot(f, t, n) ==> AgreeAtRoot(f, t, n + 1)
  {
    assert f[|f| - 1 - n..] == [f[|f| - 1 - n]] + f[|f| - n..];
    assert t[|t| - 1 - n..] == [t[|t| - 1 - n]] + t[|t| - n..];
  }

  /**
   * The common root length of two reversed segment arrays: they agree on that
   * many root-end segments, and the next pair (if both have one) differs.
   */
  function CommonRootLength(f: seq<string>, t: seq<string>): (k: nat)
    ensures k <= |f| && k <= |t|
    ensures AgreeAtRoot(f, t, k)
    ensures k < |f| && k < |t| ==> f[|f| - 1 - k] != t[|t| - 1 - k]
  {
    assert AgreeAtRoot(f, t, 0);
    CommonRootFrom(f, t, 0)
  }

  /** Agreement on the last `n` segments implies agreement on the last `k <= n`. */
  lemma AgreeAtRootShorter(f: seq<string>, t: seq<string>, k: nat, n: nat)
    requires k <= n <= |f| && n <= |t|
    requires AgreeAtRoot(f, t, n)
    ensures AgreeAtRoot(f, t, k)
  {
    assert f[|f| - k..] == f[|f| - n..][n - k..];
    assert t[|t| - k..] == t[|t| - n..][n - k..];
  }

  /** Any length the comparison can stop at, counting on from `k`, is the one found. */
  lemma {:induction false} CommonRootFromUnique(f: seq<string>, t: seq<string>, k: nat, n: nat)
    requires k <= n <= |f| && n <= |t|
    requires AgreeAtRoot(f, t, n)
    requires n == |f| || n == |t| || f[|f| - 1 - n] != t[|t| - 1 - n]
    ensures AgreeAtRoot(f, t, k)
    ensures CommonRootFrom(f, t, k) == n
    decreases n - k
  {
    AgreeAtRootShorter(f, t, k, n);
    if k < n {
      assert f[|f| - n..][n - 1 - k] == f[|f| - 1 - k];
      assert t[|t| - n..][n - 1 - k] == t[|t| - 1 - k];
      CommonRootFromUnique(f, t, k + 1, n);
    }
  }

  /** Any length the comparison loop can stop at is the common root length. */
  lemma CommonRootLengthUnique(f: seq<string>, t: seq<string>, n: nat)
    requires n <= |f| && n <= |t|
    requires AgreeAtRoot(f, t, n)
    requires n == |f| || n == |t| || f[|f| - 1 - n] != t[|t| - 1 - n]
    ensures CommonRootLength(f, t) == n
  {
    CommonRootFromUnique(f, t, 0, n);
  }

  /** `n` copies of `s`, appended one after the other. */
  function Repeat(s: string, n: nat): string {
    if n == 0 then "" else Repeat(s, n - 1) + s
  }

  /**
   * The segments of a non-empty reversed array written root first, leaf
   * last, separated by `sep`.
   */
  function JoinLeafLast(s: seq<string>, sep: string): string
    requires |s| >= 1
    decreases |s|
  {
    if |s| == 1 then s[0] else JoinLeafLast(s[1..], sep) + sep + s[0]
  }

  /**
   * getRelativePath on the reversed segments of two files: one `..` step per
   * segment of `from` below the common root, then the segments of `to`
   * below the common root.  Reading `toSegments[-1]` fails when `to` has no
   * segment below the common root.
   */
  function RelativePath(f: seq<string>, t: seq<string>, sep: string): (r: Result<string>)
    ensures r.Throws? <==> CommonRootLength(f, t) == |t|
    ensures r.Throws? ==> r.exception == IndexOutOfBounds
    ensures r.Ok? ==> Repeat(".." + sep, |f| - CommonRootLength(f, t)) <= r.value
  {
    var k := CommonRootLength(f, t);
    if k == |t| then Throws(IndexOutOfBounds)
    else Ok(Repeat(".." + sep, |f| - k) + JoinLeafLast(t[..|t| - k], sep))
  }

  /** The three loops of getRelativePath, on the reversed segment arrays. */
  method GetRelativePath(fromSegments: seq<string>, toSegments: seq<string>, separator: string)
    returns (r: Result<string>)
    ensures r == RelativePath(fromSegments, toSegments, separator)
  {
    var i, j := SkipCommonRoot(fromSegments, toSegments);
    var relativePath := AscendSteps(i, separator);
    if j < 0 {
      return Throws(IndexOutOfBounds);
    }
    relativePath := DescendSteps(toSegments, j, separator, relativePath);
    assert toSegments[..|toSegments| - CommonRootLength(fromSegments, toSegments)] == toSegments[..j + 1];
    r := Ok(relativePath);
  }

  /**
   * The first loop of getRelativePath: walks both arrays from their root
   * ends while the segments agree; `i` and `j` end on the first pair that
   * differs (or at -1).
   */
  method SkipCommonRoot(f: seq<string>, t: seq<string>) returns (i: int, j: int)
    ensures i == |f| - 1 - CommonRootLength(f, t) && j == |t| - 1 - CommonRootLength(f, t)
  {
    i := |f| - 1;
    j := |t| - 1;
    ghost var n: nat := 0;
    while i >= 0 && j >= 0 && f[i] == t[j]
      invariant n <= |f| && n <= |t| && i == |f| - 1 - n && j == |t| - 1 - n
      invariant CommonRootFrom(f, t, n) == CommonRootLength(f, t)
    {
      CommonRootFromStep(f, t, n);
      i := i - 1;
      j := j - 1;
      n := n + 1;
    }
    CommonRootFromStop(f, t, n);
  }

  /** The second loop of getRelativePath: one `..` step for each remaining `from` segment. */
  method AscendSteps(i: int, separator: string) returns (relativePath: string)
    requires -1 <= i
    ensures relativePath == Repeat(".." + separator, i + 1)
  {
    relativePath := "";
    var n := i;
    var steps := 0;
    while n >= 0
      invariant -1 <= n && steps + n == i && steps >= 0
      invariant relativePath == Repeat(".." + separator, steps)
    {
      relativePath := relativePath + (".." + separator);
      steps := steps + 1;
      n := n - 1;
    }
  }

  /**
   * The last loop of getRelativePath: the remaining `to` segments, root end
   * first, each but the leaf followed by the separator.
   */
  method DescendSteps(t: seq<string>, top: int, separator: string, ups: string) returns (relativePath: string)
    requires 0 <= top < |t|
    ensures relativePath == ups + JoinLeafLast(t[..top + 1], separator)
  {
    relativePath := ups;
    var j := top;
    while j >= 1
      invariant 0 <= j <= top
      invariant relativePath + t[j] == ups + JoinLeafLast(t[j..top + 1], separator)
    {
      DescendStep(t, j, top, separator, relativePath, ups);
      relativePath := relativePath + (t[j] + separator);
      j := j - 1;
    }
    relativePath := relativePath + t[j];
    assert t[0..top + 1] == t[..top + 1];
  }

  /** One iteration of the last loop of getRelativePath keeps its invariant. */
  lemma DescendStep(t: seq<string>, j: nat, top: nat, sep: string, acc: string, ups: string)
    requires 1 <= j <= top < |t|
    requires acc + t[j] == ups + JoinLeafLast(t[j..top + 1], sep)
    ensures (acc + (t[j] + sep)) + t[j - 1] == ups + JoinLeafLast(t[j - 1..top + 1], sep)
  {
    assert t[j - 1..top + 1][1..] == t[j..top + 1];
    assert (acc + (t[j] + sep)) + t[j - 1] == (acc + t[j]) + sep + t[j - 1];
  }

  /**
   * When `from` is a proper ancestor of `to`, the relative path has no `..`
   * step: it is `to`'s own segments below `from`.
   */
  lemma RelativePathToDescendant(f: seq<string>, below: seq<string>, sep: string)
    requires |below| >= 1
    ensures RelativePath(f, below + f, sep) == Ok(JoinLeafLast(below, sep))
  {
    var t := below + f;
    assert t[|t| - |f|..] == f;
    assert AgreeAtRoot(f, t, |f|);
    CommonRootLengthUnique(f, t, |f|);
    assert t[..|t| - |f|] == below;
    assert Repeat(".." + sep, 0) + JoinLeafLast(below, sep) == JoinLeafLast(below, sep);
  }

  /** Joining the reversed segments of a relative path gives the path back. */
  lemma {:induction false} JoinSegmentsOfRelative(rel: string)
    requires |rel| == 0 || rel[0] != '/'
    ensures JoinLeafLast(ReverseSegments(rel), "/") == rel
    decreases |rel|
  {
    var i := LastSlash(rel);
    if i >= 0 {
      assert i > 0;
      var q := rel[..i];
      assert Parent(rel) == Some(q);
      assert ReverseSegments(rel)[1..] == ReverseSegments(q);
      JoinSegmentsOfRelative(q);
      assert rel == q + "/" + rel[i + 1..];
    }
  }

  /**
   * The relative path, from a storage base directory, of the file that stores
   * the item at `path` is the item path without its leading separator.
   */
  lemma RelativePathOfStoredFile(base: string, path: string)
    requires |base| >= 1 && base[0] == '/'
    requires |path| >= 1 && path[0] == '/' && (|path| == 1 || path[1] != '/')
    ensures RelativePath(ReverseSegments(base), ReverseSegments(base + path), "/") == Ok(path[1..])
  {
    var rel := path[1..];
    assert base + path == base + "/" + rel;
    SegmentsOfChild(base, rel);
    RelativePathToDescendant(ReverseSegments(base), ReverseSegments(rel), "/");
    JoinSegmentsOfRelative(rel);
  }

  // ----- isHidden -----

  /** isHidden: the path (null allowed) starts with `.`, `/.` or separator + `.`. */
  function IsHidden(path: Option<string>, separator: string): (r: bool)
    ensures path.None? ==> !r
    ensures r ==> |path.value| >= 1
  {
    match path
    case None => false
    case Some(p) => StartsWith(p, ".") || StartsWith(p, "/.") || StartsWith(p, separator + ".")
  }

  /**
   * A file stored under a base directory is skipped as hidden exactly when its
   * item path starts with `/.`: only the first segment below the base counts.
   */
  lemma HiddenStoredFile(base: string, path: string)
    requires |base| >= 1 && base[0] == '/'
    requires |path| >= 1 && path[0] == '/' && (|path| == 1 || path[1] != '/')
    ensures RelativePath(ReverseSegments(base), ReverseSegments(base + path), FileSeparator).Ok?
    ensures IsHidden(Some(RelativePath(ReverseSegments(base), ReverseSegments(base + path), FileSeparator).value), FileSeparator)
        <==> StartsWith(path, "/.")
  {
    RelativePathOfStoredFile(base, path);
    HiddenItemPath(path);
  }

  /** An item path without its leading separator is hidden exactly when the item path starts with `/.`. */
  lemma HiddenItemPath(path: string)
    requires |path| >= 1 && path[0] == '/' && (|path| == 1 || path[1] != '/')
    ensures IsHidden(Some(path[1..]), FileSeparator) <==> StartsWith(path, "/.")
  {
    var rel := path[1..];
    assert !StartsWith(rel, "/.") && !StartsWith(rel, FileSeparator + ".") by {
      if |rel| > 0 {
        assert rel[0] != '/';
      }
    }
    assert StartsWith(rel, ".") <==> StartsWith(path, "/.") by {
      if StartsWith(path, "/.") {
        assert rel[0] == '.';
      }
      if StartsWith(rel, ".") {
        assert path[..2] == "/.";
      }
    }
  }
}
