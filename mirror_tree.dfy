/**
  The mirror as the index builder walks it: a tree of entries visited depth-first,
  each directory before its contents, with every `.git` or `.github` entry skipped
  together with its subtree. The order of a directory's children is the order the
  filesystem lists them in, which the model takes as given.
*/
module MirrorTree {
  import opened Results
  import opened PathNames

  datatype Node =
    | File(name: string, contents: Option<string>)  // any non-directory entry; None: reading it as text fails
    | Dir(name: string, children: seq<Node>)
    | Fault                                         // the walker reports an error at this position

  /** One item of the walk: the file names from the root down to the node, and the node itself. */
  datatype Entry = Entry(path: seq<string>, node: Node)

  /** The filter applied to every entry, the root included; errors are never filtered. */
  predicate Pruned(n: Node) {
    !n.Fault? && IsGit(n.name)
  }

  /** No component of the path is a pruned name. */
  predicate GitFree(path: seq<string>) {
    forall j :: 0 <= j < |path| ==> !IsGit(path[j])
  }

  /** The pre-order walk of the whole tree: empty when the root itself is pruned, else led by the root. */
  function Walk(root: Node): (r: seq<Entry>)
    ensures r == [] <==> Pruned(root)
    ensures r != [] ==> r[0].node == root
  {
    WalkFrom([], root)
  }

  /**
    The walk of the subtree `n` whose parent directory has path `parent`: a node
    comes before everything beneath it, and every entry lies under `parent`.
  */
  function WalkFrom(parent: seq<string>, n: Node): (r: seq<Entry>)
    ensures r == [] <==> Pruned(n)
    ensures r != [] ==> r[0].node == n
    ensures forall e :: e in r ==> |parent| <= |e.path| && e.path[..|parent|] == parent
    decreases n, 1
  {
    if Pruned(n) then []
    else match n
      case Fault => [Entry(parent, n)]
      case File(name, _) => [Entry(parent + [name], n)]
      case Dir(name, kids) => [Entry(parent + [name], n)] + WalkChildren(parent + [name], kids)
  }

  function WalkChildren(parent: seq<string>, kids: seq<Node>): (r: seq<Entry>)
    ensures forall e :: e in r ==> |parent| <= |e.path| && e.path[..|parent|] == parent
    decreases kids, 0
  {
    if kids == [] then [] else WalkFrom(parent, kids[0]) + WalkChildren(parent, kids[1..])
  }

  /**
    The node `m` sits in the tree `n` at `path`, which starts with the name of `n`
    and goes down one child per component. Error positions have no path.
  */
  ghost predicate At(n: Node, path: seq<string>, m: Node)
    decreases n
  {
    match n
    case Fault => false
    case File(name, _) => path == [name] && m == n
    case Dir(name, kids) =>
      |path| >= 1 && path[0] == name &&
      if |path| == 1 then m == n
      else exists k :: 0 <= k < |kids| && At(kids[k], path[1..], m)
  }

  /** Every entry of the walk lies under a `.git`-free path: nothing below a pruned directory is visited. */
  lemma {:induction false} WalkAvoidsGit(root: Node, e: Entry)
    requires e in Walk(root)
    ensures GitFree(e.path)
  {
    WalkFromAvoidsGit([], root, e);
  }

  lemma {:induction false} WalkFromAvoidsGit(parent: seq<string>, n: Node, e: Entry)
    requires GitFree(parent)
    requires e in WalkFrom(parent, n)
    ensures GitFree(e.path)
    decreases n, 1
  {
    match n
    case Fault =>
    case File(name, _) =>
    case Dir(name, kids) =>
      if e != Entry(parent + [name], n) {
        WalkChildrenAvoidsGit(parent + [name], kids, e);
      }
  }

  lemma {:induction false} WalkChildrenAvoidsGit(parent: seq<string>, kids: seq<Node>, e: Entry)
    requires GitFree(parent)
    requires e in WalkChildren(parent, kids)
    ensures GitFree(e.path)
    decreases kids, 0
  {
    if e in WalkFrom(parent, kids[0]) {
      WalkFromAvoidsGit(parent, kids[0], e);
    } else {
      WalkChildrenAvoidsGit(parent, kids[1..], e);
    }
  }

  /** Every non-error entry of the walk is a node of the tree, found at the path the entry carries. */
  lemma {:induction false} WalkSound(root: Node, e: Entry)
    requires e in Walk(root) && !e.node.Fault?
    ensures At(root, e.path, e.node)
  {
    WalkFromSound([], root, e);
    assert e.path[0..] == e.path;
  }

  lemma {:induction false} WalkFromSound(parent: seq<string>, n: Node, e: Entry)
    requires e in WalkFrom(parent, n) && !e.node.Fault?
    ensures |parent| < |e.path| && e.path[..|parent|] == parent
    ensures At(n, e.path[|parent|..], e.node)
    decreases n, 1
  {
    match n
    case Fault =>
    case File(name, _) =>
      assert e.path[|parent|..] == [name];
    case Dir(name, kids) =>
      var here := parent + [name];
      if e == Entry(here, n) {
        assert e.path[|parent|..] == [name];
      } else {
        var k := WalkChildrenSound(here, kids, e);
        var p := e.path[|parent|..];
        assert p[1..] == e.path[|here|..];
        assert e.path[..|parent|] == here[..|parent|];
      }
  }

  lemma {:induction false} WalkChildrenSound(parent: seq<string>, kids: seq<Node>, e: Entry) returns (k: nat)
    requires e in WalkChildren(parent, kids) && !e.node.Fault?
    ensures k < |kids|
    ensures |parent| < |e.path| && e.path[..|parent|] == parent
    ensures At(kids[k], e.path[|parent|..], e.node)
    decreases kids, 0
  {
    if e in WalkFrom(parent, kids[0]) {
      WalkFromSound(parent, kids[0], e);
      k := 0;
    } else {
      var k' := WalkChildrenSound(parent, kids[1..], e);
      k := k' + 1;
    }
  }

  /** Every node of the tree under a `.git`-free path is visited by the walk. */
  lemma {:induction false} WalkComplete(root: Node, path: seq<string>, m: Node)
    requires At(root, path, m) && GitFree(path)
    ensures Entry(path, m) in Walk(root)
  {
    WalkFromComplete([], root, path, m);
    assert [] + path == path;
  }

  lemma {:induction false} WalkFromComplete(parent: seq<string>, n: Node, path: seq<string>, m: Node)
    requires At(n, path, m) && GitFree(path)
    ensures Entry(parent + path, m) in WalkFrom(parent, n)
    decreases n, 1
  {
    match n
    case Fault =>
    case File(name, _) =>
      assert !IsGit(path[0]);
    case Dir(name, kids) =>
      assert !IsGit(path[0]);
      if |path| > 1 {
        var k :| 0 <= k < |kids| && At(kids[k], path[1..], m);
        var here := parent + [name];
        assert GitFree(path[1..]) by {
          forall j | 0 <= j < |path[1..]| ensures !IsGit(path[1..][j]) {
            assert path[1..][j] == path[j + 1];
          }
        }
        WalkChildrenComplete(here, kids, k, path[1..], m);
        assert here + path[1..] == parent + path;
      } else {
        assert path == [name];
      }
  }

  lemma {:induction false} WalkChildrenComplete(parent: seq<string>, kids: seq<Node>, k: nat, path: seq<string>, m: Node)
    requires k < |kids| && At(kids[k], path, m) && GitFree(path)
    ensures Entry(parent + path, m) in WalkChildren(parent, kids)
    decreases kids, 0
  {
    if k == 0 {
      WalkFromComplete(parent, kids[0], path, m);
    } else {
      assert kids[1..][k - 1] == kids[k];
      WalkChildrenComplete(parent, kids[1..], k - 1, path, m);
    }
  }
}
