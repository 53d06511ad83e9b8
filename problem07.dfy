/**
 * Day 7: a directory tree rebuilt from a shell transcript (`$ cd x`,
 * `$ ls`, `dir x`, `size name`), the recursive size and full name of every
 * directory, the total of the small directories and the choice of the
 * directory to delete.
 *
 * The `DirNode` objects live in one arena, a sequence of nodes: a node's
 * `Parent` and `Children` are positions in that sequence, and the root is at
 * position 0. A node is added after its parent, so children come later.
 */
module Problem07 {
  import opened Wrappers
  import opened Numerics
  import opened Text

  const NullReference := NullReferenceException
  const IndexOutOfRange := IndexOutOfRangeException
  /** `First` with no match. */
  const InvalidOperation := InvalidOperationException
  const Overflow := OverflowException

  const DiskSize := 70000000
  const UpdateSize := 30000000
  const SmallLimit := 100000

  datatype FileNode = FileNode(name: string, size: int)

  datatype DirNode = DirNode(name: string, parent: Option<nat>, children: seq<nat>, files: seq<FileNode>)

  type Tree = seq<DirNode>

  // ---------------------------------------------------------------------------
  // The shape of the tree
  // ---------------------------------------------------------------------------

  /** Every child comes after its parent, so recursion down the tree ends. */
  predicate Ordered(t: Tree)
  {
    forall i, k :: 0 <= i < |t| && 0 <= k < |t[i].children| ==> i < t[i].children[k] < |t|
  }

  /** Every parent comes before its child, so recursion up the tree ends. */
  predicate Parented(t: Tree)
  {
    forall i :: 0 <= i < |t| && t[i].parent.Some? ==> t[i].parent.value < i
  }

  /**
   * The tree `MoveDown` builds: the root alone has no parent, parent and
   * child links agree both ways, and no two children of a node share a name.
   */
  predicate WellFormed(t: Tree)
  {
    && |t| > 0 && t[0].parent.None?
    && Ordered(t) && Parented(t)
    && (forall i :: 0 < i < |t| ==> t[i].parent.Some? && i in t[t[i].parent.value].children)
    && (forall i, k :: 0 <= i < |t| && 0 <= k < |t[i].children| ==> t[t[i].children[k]].parent == Some(i))
    && UniqueNames(t)
  }

  predicate UniqueNames(t: Tree)
    requires Ordered(t)
  {
    forall i, k, l :: 0 <= i < |t| && 0 <= k < l < |t[i].children| ==>
      t[t[i].children[k]].name != t[t[i].children[l]].name
  }

  // ---------------------------------------------------------------------------
  // MoveDown
  // ---------------------------------------------------------------------------

  /** `Children.FirstOrDefault(d => d.Name == path)`, from the `k`-th child on. */
  function ChildNamed(t: Tree, i: nat, path: string, k: nat): (r: Option<nat>)
    requires Ordered(t) && i < |t| && k <= |t[i].children|
    ensures r.Some? ==> exists j :: k <= j < |t[i].children| && t[i].children[j] == r.value && t[r.value].name == path
    ensures r.None? <==> forall j :: k <= j < |t[i].children| ==> t[t[i].children[j]].name != path
    decreases |t[i].children| - k
  {
    if k == |t[i].children| then None
    else if t[t[i].children[k]].name == path then Some(t[i].children[k])
    else ChildNamed(t, i, path, k + 1)
  }

  /** `MoveDown(path)`: the child named `path`, added as the last node when there is none. */
  function MovedDown(t: Tree, i: nat, path: string): (r: (Tree, nat))
    requires Ordered(t) && i < |t|
    ensures |t| <= |r.0| && r.1 < |r.0|
  {
    match ChildNamed(t, i, path, 0)
    case Some(c) => (t, c)
    case None => (Adopted(t, i, path), |t|)
  }

  /** The tree with a new empty directory `path` added as the last node and the last child of `i`. */
  function Adopted(t: Tree, i: nat, path: string): (r: Tree)
    requires i < |t|
    ensures |r| == |t| + 1 && r[|t|] == DirNode(path, Some(i), [], [])
    ensures r[i].children == t[i].children + [|t|]
    ensures r[i].name == t[i].name && r[i].parent == t[i].parent && r[i].files == t[i].files
    ensures forall j :: 0 <= j < |t| && j != i ==> r[j] == t[j]
  {
    t[i := t[i].(children := t[i].children + [|t|])] + [DirNode(path, Some(i), [], [])]
  }

  /**
   * `MoveDown` returns a child of the node named `path`; it adds a node only
   * when there was none, as the last child, and otherwise leaves the tree as
   * it was. Every other node keeps its name, parent, children and files.
   */
  lemma MoveDownFinds(t: Tree, i: nat, path: string)
    requires WellFormed(t) && i < |t|
    ensures var (t', c) := MovedDown(t, i, path);
      && c < |t'| && t'[c].name == path && t'[c].parent == Some(i) && c in t'[i].children
      && ((exists j :: 0 <= j < |t[i].children| && t[t[i].children[j]].name == path) ==> t' == t)
      && ((forall j :: 0 <= j < |t[i].children| ==> t[t[i].children[j]].name != path) ==>
        && c == |t| && |t'| == |t| + 1
        && t'[c] == DirNode(path, Some(i), [], [])
        && t'[i].children == t[i].children + [c])
      && (forall j :: 0 <= j < |t| && j != i ==> t'[j] == t[j])
      && t'[i].name == t[i].name && t'[i].parent == t[i].parent && t'[i].files == t[i].files
  {
    match ChildNamed(t, i, path, 0)
    case Some(c) =>
      var j :| 0 <= j < |t[i].children| && t[i].children[j] == c && t[c].name == path;
      assert c in t[i].children;
      if forall j :: 0 <= j < |t[i].children| ==> t[t[i].children[j]].name != path {
        assert false;
      }
    case None =>
      assert (t[i].children + [|t|])[|t[i].children|] == |t|;
  }

  /** `MoveDown` keeps the tree well formed; in particular child names stay unique. */
  lemma MoveDownWellFormed(t: Tree, i: nat, path: string)
    requires WellFormed(t) && i < |t|
    ensures WellFormed(MovedDown(t, i, path).0)
  {
    if ChildNamed(t, i, path, 0).None? {
      AdoptedLinks(t, i, path);
      AdoptedUp(t, i, path);
      AdoptedUnique(t, i, path);
    }
  }

  lemma AdoptedLinks(t: Tree, i: nat, path: string)
    requires WellFormed(t) && i < |t|
    ensures var r := Adopted(t, i, path);
      Ordered(r) && Parented(r)
      && forall j, k :: 0 <= j < |r| && 0 <= k < |r[j].children| ==> r[r[j].children[k]].parent == Some(j)
  {
    var r := Adopted(t, i, path);
    forall j, k | 0 <= j < |r| && 0 <= k < |r[j].children|
      ensures j < r[j].children[k] < |r| && r[r[j].children[k]].parent == Some(j)
    {
      if j == i && k == |t[i].children| {
      } else {
        assert r[j].children[k] == t[j].children[k];
      }
    }
  }

  lemma AdoptedUp(t: Tree, i: nat, path: string)
    requires WellFormed(t) && i < |t|
    ensures var r := Adopted(t, i, path);
      forall j :: 0 < j < |r| ==> r[j].parent.Some? && r[j].parent.value < |r| && j in r[r[j].parent.value].children
  {
    var r := Adopted(t, i, path);
    forall j | 0 < j < |r|
      ensures r[j].parent.Some? && r[j].parent.value < |r| && j in r[r[j].parent.value].children
    {
      if j < |t| {
        var p := t[j].parent.value;
        assert j in t[p].children;
        assert t[p].children <= r[p].children;
      }
    }
  }

  lemma AdoptedUnique(t: Tree, i: nat, path: string)
    requires WellFormed(t) && i < |t|
    requires forall j :: 0 <= j < |t[i].children| ==> t[t[i].children[j]].name != path
    requires Ordered(Adopted(t, i, path))
    ensures UniqueNames(Adopted(t, i, path))
  {
    var r := Adopted(t, i, path);
    assert forall c :: 0 <= c < |t| ==> r[c].name == t[c].name;
    forall j, k, l | 0 <= j < |r| && 0 <= k < l < |r[j].children|
      ensures r[r[j].children[k]].name != r[r[j].children[l]].name
    {
      if j == |t| {
      } else if j != i {
        assert r[j].children == t[j].children;
      } else if l < |t[i].children| {
        assert r[j].children[k] == t[j].children[k] && r[j].children[l] == t[j].children[l];
      } else {
        assert r[j].children[l] == |t|;
        assert r[r[j].children[k]].name == t[t[i].children[k]].name;
      }
    }
  }

  // ---------------------------------------------------------------------------
  // GetSize
  // ---------------------------------------------------------------------------

  function FileSizes(files: seq<FileNode>): (r: seq<int>)
    ensures |r| == |files| && forall j :: 0 <= j < |files| ==> r[j] == files[j].size
  {
    seq(|files|, j requires 0 <= j < |files| => files[j].size)
  }

  /**
   * `GetSize()`: `Files.Sum(f => f.Size) + Children.Sum(c => c.GetSize())`.
   * Each LINQ `Sum` throws `OverflowException` on a partial sum outside
   * `int`; the `+` between them wraps.
   */
  function Size(t: Tree, i: nat): (r: Result<int>)
    requires Ordered(t) && i < |t|
    ensures r.Success? ==> IsInt32(r.value)
    ensures r.Failure? ==> r.error == Overflow
    decreases |t| - i, 1
  {
    match LinqSum(FileSizes(t[i].files))
    case Failure(e) => Failure(e)
    case Success(f) =>
      match ChildrenSize(t, i, |t[i].children|)
      case Failure(e) => Failure(e)
      case Success(c) => Success(Wrap32(f + c))
  }

  /** `Children.Sum(c => c.GetSize())` over the first `k` children. */
  function ChildrenSize(t: Tree, i: nat, k: nat): (r: Result<int>)
    requires Ordered(t) && i < |t| && k <= |t[i].children|
    ensures r.Success? ==> IsInt32(r.value)
    ensures r.Failure? ==> r.error == Overflow
    decreases |t| - i, 0, k
  {
    if k == 0 then Success(0)
    else
      match ChildrenSize(t, i, k - 1)
      case Failure(e) => Failure(e)
      case Success(acc) =>
        match Size(t, t[i].children[k - 1])
        case Failure(e) => Failure(e)
        case Success(s) => if IsInt32(acc + s) then Success(acc + s) else Failure(Overflow)
  }

  /** The size a directory really has: its files and everything below it, exactly. */
  function TotalSize(t: Tree, i: nat): int
    requires Ordered(t) && i < |t|
    decreases |t| - i, 1
  {
    Sum(FileSizes(t[i].files)) + ChildrenTotal(t, i, |t[i].children|)
  }

  function ChildrenTotal(t: Tree, i: nat, k: nat): int
    requires Ordered(t) && i < |t| && k <= |t[i].children|
    decreases |t| - i, 0, k
  {
    if k == 0 then 0 else ChildrenTotal(t, i, k - 1) + TotalSize(t, t[i].children[k - 1])
  }

  predicate NonNegative(t: Tree)
  {
    forall i, j :: 0 <= i < |t| && 0 <= j < |t[i].files| ==> t[i].files[j].size >= 0
  }

  /** With no negative file sizes, the first `k` children together are at least as large as each of them. */
  lemma {:induction false} ChildrenTotalBounds(t: Tree, i: nat, k: nat)
    requires Ordered(t) && NonNegative(t) && i < |t| && k <= |t[i].children|
    ensures ChildrenTotal(t, i, k) >= 0
    ensures forall j :: 0 <= j < k ==> 0 <= TotalSize(t, t[i].children[j]) <= ChildrenTotal(t, i, k)
    decreases |t| - i, 0, k
  {
    if k > 0 {
      ChildrenTotalBounds(t, i, k - 1);
      TotalSizeBounds(t, t[i].children[k - 1]);
    }
  }

  lemma {:induction false} TotalSizeBounds(t: Tree, i: nat)
    requires Ordered(t) && NonNegative(t) && i < |t|
    ensures TotalSize(t, i) >= ChildrenTotal(t, i, |t[i].children|) >= 0
    decreases |t| - i, 1
  {
    ChildrenTotalBounds(t, i, |t[i].children|);
    var sizes := FileSizes(t[i].files);
    SumMonotone(sizes, 0);
  }

  /**
   * With no negative file sizes, a directory is at least as large as each
   * of its children.
   */
  lemma ChildNoLarger(t: Tree, i: nat, k: nat)
    requires Ordered(t) && NonNegative(t) && i < |t| && k < |t[i].children|
    ensures 0 <= TotalSize(t, t[i].children[k]) <= TotalSize(t, i)
  {
    ChildrenTotalBounds(t, i, |t[i].children|);
    TotalSizeBounds(t, i);
  }

  /**
   * `GetSize` is the exact size whenever the sizes are not negative and the
   * directory's true size fits an `int`: no `Sum` throws and nothing wraps.
   */
  lemma {:induction false} SizeExact(t: Tree, i: nat)
    requires Ordered(t) && NonNegative(t) && i < |t|
    requires TotalSize(t, i) < 0x8000_0000
    ensures Size(t, i) == Success(TotalSize(t, i))
    decreases |t| - i, 1
  {
    var sizes := FileSizes(t[i].files);
    TotalSizeBounds(t, i);
    LinqSumFits(sizes);
    ChildrenExact(t, i, |t[i].children|);
  }

  lemma {:induction false} ChildrenExact(t: Tree, i: nat, k: nat)
    requires Ordered(t) && NonNegative(t) && i < |t| && k <= |t[i].children|
    requires ChildrenTotal(t, i, k) < 0x8000_0000
    ensures ChildrenSize(t, i, k) == Success(ChildrenTotal(t, i, k))
    decreases |t| - i, 0, k
  {
    if k > 0 {
      var child := t[i].children[k - 1];
      var acc := ChildrenTotal(t, i, k - 1);
      var size := TotalSize(t, child);
      assert ChildrenTotal(t, i, k) == acc + size;
      ChildrenTotalBounds(t, i, k - 1);
      TotalSizeBounds(t, child);
      ChildrenExact(t, i, k - 1);
      SizeExact(t, child);
      assert IsInt32(acc + size);
    }
  }

  // ---------------------------------------------------------------------------
  // GetFullName
  // ---------------------------------------------------------------------------

  /** `GetFullName()`: the parent's full name, " :: ", then the name; the root's is its bare name. */
  function FullName(t: Tree, i: nat): string
    requires Parented(t) && i < |t|
    decreases i
  {
    match t[i].parent
    case None => t[i].name
    case Some(p) => FullName(t, p) + " :: " + t[i].name
  }

  /**
   * In a well-formed tree every full name starts with the root's name and
   * ends with the node's own name, and a child's full name extends its
   * parent's by " :: " and the child's name.
   */
  lemma {:induction false} FullNameFromRoot(t: Tree, i: nat)
    requires WellFormed(t) && i < |t|
    ensures StartsWith(FullName(t, i), t[0].name)
    ensures EndsWith(FullName(t, i), t[i].name)
    ensures forall k :: 0 <= k < |t[i].children| ==>
      FullName(t, t[i].children[k]) == FullName(t, i) + " :: " + t[t[i].children[k]].name
    decreases i
  {
    if i > 0 {
      var p := t[i].parent.value;
      FullNameFromRoot(t, p);
      assert (FullName(t, p) + " :: " + t[i].name)[..|t[0].name|] == FullName(t, p)[..|t[0].name|];
    }
  }

  predicate EndsWith(s: string, suffix: string)
  {
    |suffix| <= |s| && s[|s| - |suffix|..] == suffix
  }

  /**
   * Every node lies below the root: with no negative file sizes, no
   * directory is larger than the root.
   */
  lemma {:induction false} WithinRoot(t: Tree, j: nat)
    requires WellFormed(t) && NonNegative(t) && j < |t|
    ensures 0 <= TotalSize(t, j) <= TotalSize(t, 0)
    decreases j
  {
    if j == 0 {
      TotalSizeBounds(t, 0);
      SumMonotone(FileSizes(t[0].files), 0);
    } else {
      var p := t[j].parent.value;
      assert j in t[p].children;
      var k :| 0 <= k < |t[p].children| && t[p].children[k] == j;
      ChildNoLarger(t, p, k);
      WithinRoot(t, p);
    }
  }

  // ---------------------------------------------------------------------------
  // Replaying the transcript
  // ---------------------------------------------------------------------------

  /** `current.Files.Add(file)`. */
  function WithFile(t: Tree, c: nat, file: FileNode): (r: Tree)
    requires c < |t|
    ensures |r| == |t| && r[c].files == t[c].files + [file]
    ensures forall j :: 0 <= j < |t| ==>
      r[j].name == t[j].name && r[j].parent == t[j].parent && r[j].children == t[j].children
    ensures forall j :: 0 <= j < |t| && j != c ==> r[j] == t[j]
  {
    t[c := t[c].(files := t[c].files + [file])]
  }

  /** Adding a file changes no link and no name, so the tree stays well formed. */
  lemma WithFileWellFormed(t: Tree, c: nat, file: FileNode)
    requires WellFormed(t) && c < |t|
    ensures WellFormed(WithFile(t, c, file))
  {
    var r := WithFile(t, c, file);
    assert Ordered(r);
    forall i, k, l | 0 <= i < |r| && 0 <= k < l < |r[i].children|
      ensures r[r[i].children[k]].name != r[r[i].children[l]].name
    {
      assert r[i].children == t[i].children;
    }
  }

  /**
   * The solver's state between lines: the tree, `current` (`None` once
   * `cd ..` has climbed above the root, where C# holds `null`) and
   * `allNodes`, which gets one entry per `cd` into a directory, repeats
   * included.
   */
  datatype Shell = Shell(tree: Tree, current: Option<nat>, all: seq<nat>)

  predicate Consistent(s: Shell)
  {
    && WellFormed(s.tree)
    && (s.current.Some? ==> s.current.value < |s.tree|)
    && |s.all| > 0 && s.all[0] == 0
    && Within(s.all, |s.tree|)
  }

  /** Each of `all` is a position in a tree of `n` nodes. */
  predicate Within(all: seq<nat>, n: nat)
  {
    forall j :: 0 <= j < |all| ==> all[j] < n
  }

  /** The root "/" alone, which is current and the first of `allNodes`. */
  const Start := Shell([DirNode("/", None, [], [])], Some(0), [0])

  /**
   * One line of the transcript, split on spaces. A line starting with `$`
   * is a command, any other a line of a listing.
   */
  function Step(s: Shell, line: string): (r: Result<Shell>)
    requires Consistent(s)
    ensures r.Success? ==> Consistent(r.value)
  {
    if StartsWith(line, "$") then Command(s, Split(line, ' ')) else Listing(s, Split(line, ' '))
  }

  /**
   * `cd ..` climbs to the parent, `cd /` returns to the root, `cd x` moves
   * down (adding `x` when new) and records it in `allNodes`; other commands
   * do nothing. A missing word is `IndexOutOfRangeException`, a null
   * `current` `NullReferenceException`.
   */
  function Command(s: Shell, parts: seq<string>): (r: Result<Shell>)
    requires Consistent(s)
    ensures r.Success? ==> Consistent(r.value)
  {
    if |parts| < 2 then Failure(IndexOutOfRange)
    else if parts[1] != "cd" then Success(s)
    else if |parts| < 3 then Failure(IndexOutOfRange)
    else if parts[2] == ".." then
      match s.current
      case None => Failure(NullReference)
      case Some(c) => Success(s.(current := s.tree[c].parent))
    else if parts[2] == "/" then Success(s.(current := Some(0)))
    else
      match s.current
      case None => Failure(NullReference)
      case Some(c) =>
        EnteredConsistent(s, c, parts[2]);
        Success(Entered(s, c, parts[2]))
  }

  /** `allNodes.Add(current = current.MoveDown(path))`. */
  function Entered(s: Shell, c: nat, path: string): Shell
    requires Consistent(s) && c < |s.tree|
  {
    var moved := MovedDown(s.tree, c, path);
    Shell(moved.0, Some(moved.1), s.all + [moved.1])
  }

  /** Appending a position to positions of a smaller tree gives positions of the larger one. */
  lemma Bounded(all: seq<nat>, n: nat, m: nat, d: nat)
    requires n <= m && d < m && Within(all, n)
    ensures Within(all + [d], m)
  {
  }

  lemma EnteredConsistent(s: Shell, c: nat, path: string)
    requires Consistent(s) && c < |s.tree|
    ensures Consistent(Entered(s, c, path))
  {
    MoveDownWellFormed(s.tree, c, path);
    var moved := MovedDown(s.tree, c, path);
    var r := Entered(s, c, path);
    assert r.tree == moved.0 && r.current == Some(moved.1) && r.all == s.all + [moved.1];
    Bounded(s.all, |s.tree|, |r.tree|, moved.1);
  }

  /**
   * `dir x` does nothing and `size name` adds a file to the current
   * directory. C# reaches `current.Files` before the arguments of `Add`,
   * so a null `current` throws first, then a missing name, then whatever
   * `int.Parse` throws.
   */
  function Listing(s: Shell, listed: seq<string>): (r: Result<Shell>)
    requires Consistent(s) && |listed| >= 1
    ensures r.Success? ==> Consistent(r.value)
  {
    if listed[0] == "dir" then Success(s)
    else
      match s.current
      case None => Failure(NullReference)
      case Some(c) =>
        if |listed| < 2 then Failure(IndexOutOfRange)
        else
          match ParseInt(listed[0])
          case Failure(e) => Failure(e)
          case Success(size) =>
            WithFileWellFormed(s.tree, c, FileNode(listed[1], size));
            Success(s.(tree := WithFile(s.tree, c, FileNode(listed[1], size))))
  }

  /** The lines in order from `Start`; the first exception ends the run. */
  function Replay(lines: seq<string>): (r: Result<Shell>)
    ensures r.Success? ==> Consistent(r.value)
  {
    if lines == [] then Success(Start)
    else
      match Replay(lines[..|lines| - 1])
      case Failure(e) => Failure(e)
      case Success(s) => Step(s, lines[|lines| - 1])
  }

  /** Once a line has thrown, every longer transcript ends with that exception. */
  lemma {:induction false} ReplayStops(lines: seq<string>, n: nat)
    requires n <= |lines| && Replay(lines[..n]).Failure?
    ensures Replay(lines) == Replay(lines[..n])
    decreases |lines| - n
  {
    if n < |lines| {
      assert lines[..n + 1][..n] == lines[..n];
      ReplayStops(lines, n + 1);
    } else {
      assert lines[..n] == lines;
    }
  }

  /** The run one line further is that line's `Step`. */
  lemma ReplayNext(lines: seq<string>, i: nat)
    requires i < |lines| && Replay(lines[..i]).Success?
    ensures Replay(lines[..i + 1]) == Step(Replay(lines[..i]).value, lines[i])
  {
    assert lines[..i + 1][..i] == lines[..i];
  }

  lemma Words2(a: string, b: string)
    requires ' ' !in a && ' ' !in b
    ensures Split(a + [' '] + b, ' ') == [a, b]
  {
    SplitPrefix(a, b, ' ');
    SplitPiece(b, ' ');
  }

  /** `$ cd name` is the command with words `$`, `cd`, `name`. */
  lemma CdStep(s: Shell, name: string)
    requires Consistent(s) && ' ' !in name
    ensures Step(s, "$ cd " + name) == Command(s, ["$", "cd", name])
  {
    CdWords(name);
    assert ("$ cd " + name)[0] == '$';
  }

  lemma CdWords(name: string)
    requires ' ' !in name
    ensures Split("$ cd " + name, ' ') == ["$", "cd", name]
  {
    assert "$ cd " + name == "$" + [' '] + ("cd" + [' '] + name);
    SplitPrefix("$", "cd" + [' '] + name, ' ');
    SplitPrefix("cd", name, ' ');
    SplitPiece(name, ' ');
  }

  /** `$ cd ..` moves to the parent; from the root that is `null`. */
  lemma CdUp(s: Shell)
    requires Consistent(s) && s.current.Some?
    ensures Step(s, "$ cd ..") == Success(s.(current := s.tree[s.current.value].parent))
    ensures s.current == Some(0) ==> Step(s, "$ cd ..").value.current.None?
  {
    CdStep(s, "..");
    assert "$ cd " + ".." == "$ cd ..";
  }

  /** `$ cd /` moves to the root from anywhere, even from above it. */
  lemma CdRoot(s: Shell)
    requires Consistent(s)
    ensures Step(s, "$ cd /") == Success(s.(current := Some(0)))
  {
    CdStep(s, "/");
    assert "$ cd " + "/" == "$ cd /";
  }

  /**
   * `$ cd name` moves into the child `name` of the current directory,
   * adding it when new, and records it in `allNodes`; above the root it
   * throws.
   */
  lemma CdInto(s: Shell, name: string)
    requires Consistent(s) && ' ' !in name && name != ".." && name != "/"
    ensures s.current.None? ==> Step(s, "$ cd " + name) == Failure(NullReference)
    ensures s.current.Some? ==>
      var (t, d) := MovedDown(s.tree, s.current.value, name);
      && Step(s, "$ cd " + name) == Success(Entered(s, s.current.value, name))
      && Entered(s, s.current.value, name) == Shell(t, Some(d), s.all + [d])
      && t[d].name == name && t[d].parent == s.current
  {
    CdStep(s, name);
    if s.current.Some? {
      MoveDownFinds(s.tree, s.current.value, name);
    }
  }

  /** `$ ls` and every other command but `cd` change nothing. */
  lemma OtherCommand(s: Shell, command: string)
    requires Consistent(s) && ' ' !in command && command != "cd"
    ensures Step(s, "$ " + command) == Success(s)
  {
    assert "$ " + command == "$" + [' '] + command;
    Words2("$", command);
    assert ("$ " + command)[0] == '$';
  }

  /** A `dir x` line of a listing changes nothing. */
  lemma ListedDir(s: Shell, name: string)
    requires Consistent(s) && ' ' !in name
    ensures Step(s, "dir " + name) == Success(s)
  {
    assert "dir " + name == "dir" + [' '] + name;
    Words2("dir", name);
    assert ("dir " + name)[0] == 'd';
  }

  /** `n.ToString()` is one word, neither a command nor `dir`. */
  lemma SignedWord(n: int)
    ensures var w := Signed(n); |w| > 0 && ' ' !in w && w[0] != '$' && w != "dir"
  {
    if n < 0 {
      assert Signed(n) == "-" + Decimal(-n);
      assert forall j :: 1 <= j < |Signed(n)| ==> Signed(n)[j] == Decimal(-n)[j - 1];
    }
  }

  /** A `size name` line adds that file to the current directory. */
  lemma ListedFile(s: Shell, size: int, name: string)
    requires Consistent(s) && IsInt32(size) && ' ' !in name && s.current.Some?
    ensures Step(s, Signed(size) + " " + name) ==
      Success(s.(tree := WithFile(s.tree, s.current.value, FileNode(name, size))))
  {
    var word := Signed(size);
    SignedWord(size);
    var line := word + " " + name;
    assert line == word + [' '] + name;
    assert line[0] == word[0];
    Words2(word, name);
    ParseSigned(size);
  }

  // ---------------------------------------------------------------------------
  // The answers
  // ---------------------------------------------------------------------------

  /**
   * `GetSize()` of each of `allNodes`, in order, as the verbose listing
   * computes them; the first one that throws ends the run.
   */
  function Sizes(t: Tree, all: seq<nat>): (r: Result<seq<int>>)
    requires Ordered(t) && Within(all, |t|)
    ensures r.Success? ==> |r.value| == |all|
    ensures r.Success? ==> forall j :: 0 <= j < |all| ==> Size(t, all[j]) == Success(r.value[j])
    ensures r.Failure? ==> exists j :: 0 <= j < |all| && Size(t, all[j]) == Failure(r.error)
  {
    if all == [] then Success([])
    else
      match Sizes(t, all[..|all| - 1])
      case Failure(e) => Failure(e)
      case Success(init) =>
        match Size(t, all[|all| - 1])
        case Failure(e) => Failure(e)
        case Success(last) => Success(init + [last])
  }

  /** `Where(n => n.GetSize() <= 100000)`, in order. */
  function Small(sizes: seq<int>): (r: seq<int>)
    ensures |r| <= |sizes|
    ensures forall j :: 0 <= j < |r| ==> r[j] <= SmallLimit
  {
    if sizes == [] then []
    else
      var init := sizes[..|sizes| - 1];
      var last := sizes[|sizes| - 1];
      if last <= SmallLimit then Small(init) + [last] else Small(init)
  }

  /** `Where` keeps every size at most 100000, as often as it occurs, and nothing else. */
  lemma {:induction false} SmallKeeps(sizes: seq<int>, x: int)
    ensures multiset(Small(sizes))[x] == if x <= SmallLimit then multiset(sizes)[x] else 0
  {
    if sizes != [] {
      var init := sizes[..|sizes| - 1];
      assert sizes == init + [sizes[|sizes| - 1]];
      SmallKeeps(init, x);
    }
  }

  /**
   * `OrderBy(n => n.GetSize()).First(n => n.GetSize() >= needed)` over the
   * first `n` sizes: the position of the smallest size at least `needed`,
   * the earliest among equal sizes since `OrderBy` is stable.
   */
  function Smallest(sizes: seq<int>, needed: int, n: nat): (r: Option<nat>)
    requires n <= |sizes|
    ensures r.None? <==> forall k :: 0 <= k < n ==> sizes[k] < needed
    ensures r.Some? ==>
      && r.value < n && sizes[r.value] >= needed
      && (forall k :: 0 <= k < n && sizes[k] >= needed ==> sizes[r.value] <= sizes[k])
      && (forall k :: 0 <= k < r.value && sizes[k] >= needed ==> sizes[r.value] < sizes[k])
  {
    if n == 0 then None
    else
      var prev := Smallest(sizes, needed, n - 1);
      var last := sizes[n - 1];
      if last >= needed && (prev.None? || last < sizes[prev.value]) then Some(n - 1) else prev
  }

  /** What the solver prints: the total of the small directories, and the directory to delete with its size. */
  datatype Report = Report(total: int, bestName: string, bestSize: int)

  /**
   * The answers for the tree built and `allNodes`, whose first entry is the
   * root: every size is computed first (the verbose listing), then
   * `Answer`.
   */
  function Summary(t: Tree, all: seq<nat>): (r: Result<Report>)
    requires Ordered(t) && Parented(t) && Within(all, |t|) && |all| > 0
    ensures r.Success? ==> forall k :: 0 <= k < |all| ==> Size(t, all[k]).Success?
    ensures r.Success? ==> exists j :: 0 <= j < |all| && r.value.bestName == FullName(t, all[j])
                                      && Size(t, all[j]) == Success(r.value.bestSize)
    ensures r.Failure? ==> r.error == Overflow || r.error == InvalidOperation
  {
    match Sizes(t, all)
    case Failure(e) => Failure(e)
    case Success(sizes) => Answer(t, all, sizes)
  }

  /**
   * The `Sum` of the sizes at most 100000 (a directory entered twice counts
   * twice), then `free = 70000000 - root size` and
   * `needed = 30000000 - free`, both wrapping, and the directory `First`
   * picks. The root's size is the first, since `allNodes` starts with the
   * root.
   */
  function Answer(t: Tree, all: seq<nat>, sizes: seq<int>): Result<Report>
    requires Parented(t) && Within(all, |t|) && |sizes| == |all| > 0
  {
    match LinqSum(Small(sizes))
    case Failure(e) => Failure(e)
    case Success(total) => Choose(t, all, sizes, total, Needed(sizes[0]))
  }

  /** `needed = 30000000 - (70000000 - root size)`, each subtraction wrapping. */
  function Needed(root: int): (r: int)
    ensures 0 <= root < 0x8000_0000 ==> r == UpdateSize - (DiskSize - root)
  {
    Wrap32(UpdateSize - Wrap32(DiskSize - root))
  }

  /**
   * `First` after `OrderBy`: the entered directory with the smallest size
   * at least `needed`, or `InvalidOperationException` exactly when there is
   * none.
   */
  function Choose(t: Tree, all: seq<nat>, sizes: seq<int>, total: int, needed: int): (r: Result<Report>)
    requires Parented(t) && |sizes| == |all|
    requires Within(all, |t|)
    ensures r.Failure? <==> forall k :: 0 <= k < |all| ==> sizes[k] < needed
    ensures r.Failure? ==> r.error == InvalidOperation
    ensures r.Success? ==>
      && r.value.total == total
      && (exists j :: 0 <= j < |all| && r.value.bestSize == sizes[j] && r.value.bestName == FullName(t, all[j]))
      && r.value.bestSize >= needed
      && forall k :: 0 <= k < |all| && sizes[k] >= needed ==> r.value.bestSize <= sizes[k]
  {
    match Smallest(sizes, needed, |sizes|)
    case None => Failure(InvalidOperation)
    case Some(j) => Success(Report(total, FullName(t, all[j]), sizes[j]))
  }

  /** The whole run over a transcript. */
  function Outcome(lines: seq<string>): (r: Result<Report>)
    ensures r.Success? ==> Replay(lines).Success?
    ensures r.Success? ==> var s := Replay(lines).value;
      exists j :: 0 <= j < |s.all| && r.value.bestName == FullName(s.tree, s.all[j])
                  && Size(s.tree, s.all[j]) == Success(r.value.bestSize)
  {
    match Replay(lines)
    case Failure(e) => Failure(e)
    case Success(s) => Summary(s.tree, s.all)
  }

  /** The true size of each of `allNodes`. */
  function Totals(t: Tree, all: seq<nat>): (r: seq<int>)
    requires Ordered(t) && Within(all, |t|)
    ensures |r| == |all| && forall j :: 0 <= j < |all| ==> r[j] == TotalSize(t, all[j])
  {
    seq(|all|, j requires 0 <= j < |all| => TotalSize(t, all[j]))
  }

  /** Every size of `allNodes` is exact when the root's is. */
  lemma SizesExact(t: Tree, all: seq<nat>)
    requires WellFormed(t) && NonNegative(t) && TotalSize(t, 0) < 0x8000_0000
    requires Within(all, |t|)
    ensures Sizes(t, all) == Success(Totals(t, all))
  {
    forall j | 0 <= j < |all|
      ensures Size(t, all[j]) == Success(TotalSize(t, all[j]))
    {
      WithinRoot(t, all[j]);
      SizeExact(t, all[j]);
    }
    if Sizes(t, all).Failure? {
      assert false;
    }
    assert Sizes(t, all).value == Totals(t, all);
  }

  /**
   * When the file sizes are not negative and the disk's contents fit an
   * `int`, no `Sum` throws and nothing wraps but the total of the small
   * directories: the answer is `Answer` over the true sizes of the
   * directories entered, with `needed = 30000000 - (70000000 - root size)`
   * computed exactly. By `Choose`, the directory picked is one whose true
   * size is the smallest at least `needed`, and `First` throws exactly when
   * none is that large.
   */
  lemma DeletionChoice(t: Tree, all: seq<nat>)
    requires WellFormed(t) && NonNegative(t) && TotalSize(t, 0) < 0x8000_0000
    requires Within(all, |t|) && |all| > 0 && all[0] == 0
    ensures Summary(t, all) == Answer(t, all, Totals(t, all))
    ensures Needed(Totals(t, all)[0]) == UpdateSize - (DiskSize - TotalSize(t, 0))
  {
    SizesExact(t, all);
    WithinRoot(t, 0);
  }

  // ---------------------------------------------------------------------------
  // The solver, statement by statement
  // ---------------------------------------------------------------------------

  /** The `DirNode` objects, each updated in place. */
  class FileSystem {
    var nodes: Tree

    /** `new DirNode("/", null)`. */
    constructor()
      ensures nodes == Start.tree
    {
      nodes := [DirNode("/", None, [], [])];
    }

    /** `current.MoveDown(path)`. */
    method MoveDown(current: nat, path: string) returns (child: nat)
      requires WellFormed(nodes) && current < |nodes|
      modifies this
      ensures (nodes, child) == MovedDown(old(nodes), current, path)
      ensures WellFormed(nodes) && child < |nodes|
    {
      MoveDownWellFormed(nodes, current, path);
      MoveDownFinds(nodes, current, path);
      match ChildNamed(nodes, current, path, 0)
      case Some(c) =>
        child := c;
      case None =>
        child := |nodes|;
        nodes := Adopted(nodes, current, path);
    }

    /** `current.Files.Add(file)`. */
    method AddFile(current: nat, file: FileNode)
      requires WellFormed(nodes) && current < |nodes|
      modifies this
      ensures nodes == WithFile(old(nodes), current, file)
      ensures WellFormed(nodes)
    {
      WithFileWellFormed(nodes, current, file);
      nodes := nodes[current := nodes[current].(files := nodes[current].files + [file])];
    }
  }

  /**
   * One `$` line of the loop, on the live tree: the `Command` it replays,
   * giving the new `current` and `allNodes`.
   */
  method RunCommand(fs: FileSystem, current: Option<nat>, allNodes: seq<nat>, parts: seq<string>)
    returns (r: Result<(Option<nat>, seq<nat>)>)
    requires Consistent(Shell(fs.nodes, current, allNodes))
    modifies fs
    ensures r.Failure? ==> Command(Shell(old(fs.nodes), current, allNodes), parts) == Failure(r.error)
    ensures r.Success? ==>
      Command(Shell(old(fs.nodes), current, allNodes), parts) == Success(Shell(fs.nodes, r.value.0, r.value.1))
  {
    if |parts| < 2 {
      return Failure(IndexOutOfRange);
    }
    if parts[1] != "cd" {
      return Success((current, allNodes));
    }
    if |parts| < 3 {
      return Failure(IndexOutOfRange);
    }
    if parts[2] == ".." {
      if current.None? {
        return Failure(NullReference);
      }
      return Success((fs.nodes[current.value].parent, allNodes));
    }
    if parts[2] == "/" {
      return Success((Some(0), allNodes));
    }
    if current.None? {
      return Failure(NullReference);
    }
    var child := fs.MoveDown(current.value, parts[2]);
    return Success((Some(child), allNodes + [child]));
  }

  /** One listing line of the loop, on the live tree: the `Listing` it replays. */
  method RunListing(fs: FileSystem, current: Option<nat>, allNodes: seq<nat>, listed: seq<string>)
    returns (r: Result<()>)
    requires Consistent(Shell(fs.nodes, current, allNodes)) && |listed| >= 1
    modifies fs
    ensures r.Failure? ==> Listing(Shell(old(fs.nodes), current, allNodes), listed) == Failure(r.error)
    ensures r.Success? ==>
      Listing(Shell(old(fs.nodes), current, allNodes), listed) == Success(Shell(fs.nodes, current, allNodes))
  {
    if listed[0] == "dir" {
      return Success(());
    }
    if current.None? {
      return Failure(NullReference);
    }
    if |listed| < 2 {
      return Failure(IndexOutOfRange);
    }
    var size := ParseInt(listed[0]);
    if size.Failure? {
      return Failure(size.error);
    }
    fs.AddFile(current.value, FileNode(listed[1], size.value));
    return Success(());
  }

  /** One line of the loop on the live tree: the `Step` it replays. */
  method Interpret(fs: FileSystem, current: Option<nat>, allNodes: seq<nat>, line: string)
    returns (r: Result<(Option<nat>, seq<nat>)>)
    requires Consistent(Shell(fs.nodes, current, allNodes))
    modifies fs
    ensures r.Failure? ==> Step(Shell(old(fs.nodes), current, allNodes), line) == Failure(r.error)
    ensures r.Success? ==>
      Step(Shell(old(fs.nodes), current, allNodes), line) == Success(Shell(fs.nodes, r.value.0, r.value.1))
  {
    if StartsWith(line, "$") {
      r := RunCommand(fs, current, allNodes, Split(line, ' '));
    } else {
      var listed := RunListing(fs, current, allNodes, Split(line, ' '));
      r := if listed.Failure? then Failure(listed.error) else Success((current, allNodes));
    }
  }

  /**
   * `ExecuteCoreAsync`: reads the transcript line by line into a fresh
   * tree, then reports. Its result is `Outcome(lines)`, about which
   * `DeletionChoice` and the `Step` lemmas say what it means.
   */
  method ExecuteCore(lines: seq<string>) returns (r: Result<Report>)
    ensures r == Outcome(lines)
  {
    var fs := new FileSystem();
    var current: Option<nat> := Some(0);
    var allNodes: seq<nat> := [0];
    var i := 0;
    while i < |lines|
      invariant i <= |lines|
      invariant Replay(lines[..i]) == Success(Shell(fs.nodes, current, allNodes))
    {
      ReplayNext(lines, i);
      var next := Interpret(fs, current, allNodes, lines[i]);
      if next.Failure? {
        r := Failure(next.error);
        ReplayStops(lines, i + 1);
        return;
      }
      current, allNodes := next.value.0, next.value.1;
      i := i + 1;
    }
    assert lines[..i] == lines;
    r := Summary(fs.nodes, allNodes);
  }
}
