/**
 * The coordination service's hierarchical store, as the console sees it:
 * slash-separated paths, the parent of a path (the path part of Curator's
 * `ZKPaths.getPathAndNode`), and a store in which a node can be created only
 * under an existing parent.
 */
module ZkStore {
  import opened Wrappers
  import opened JavaInts

  type Path = string

  const ROOT: Path := "/"

  /**
   * A character ZooKeeper's path check refuses: NUL, the C0 and C1 control
   * ranges with DEL, the private-use area, the Specials block, and every
   * code point above U+FFFF. Java stores such a code point as a surrogate
   * pair, and the check refuses the whole range U+D800 to U+F8FF, which
   * holds both surrogate halves.
   */
  predicate IllegalChar(c: char)
  {
    || c == '\0'
    || '\U{1}' <= c <= '\U{1F}'
    || '\U{7F}' <= c <= '\U{9F}'
    || '\U{E000}' <= c <= '\U{F8FF}'
    || '\U{FFF0}' <= c <= '\U{FFFF}'
    || c >= '\U{10000}'
  }

  /** The node name starting at index `j` of `p` is "." or "..", a relative segment. */
  predicate RelativeSegmentAt(p: Path, j: nat)
  {
    || (j < |p| && p[j] == '.' && (j + 1 == |p| || p[j + 1] == '/'))
    || (j + 1 < |p| && p[j] == '.' && p[j + 1] == '.' && (j + 2 == |p| || p[j + 2] == '/'))
  }

  /**
   * The path syntax the client accepts: absolute, no empty node name, no
   * trailing slash except on the root, no "." or ".." node name, and no
   * illegal character.
   */
  predicate ValidPath(p: Path): (r: bool)
    ensures r ==> LastSlash(p) >= 0
    ensures r && p != ROOT ==> LastSlash(p) < |p| - 1
    ensures r ==> forall i :: 0 <= i < |p| ==> !IllegalChar(p[i])
  {
    && |p| >= 1
    && p[0] == '/'
    && (|p| > 1 ==> p[|p| - 1] != '/')
    && NoEmptyName(p)
    && NoRelativeSegment(p)
    && (forall i :: 0 <= i < |p| ==> !IllegalChar(p[i]))
  }

  /** No two slashes in a row. */
  predicate NoEmptyName(p: Path)
  {
    forall i, j :: 0 <= i && j == i + 1 < |p| ==> !(p[i] == '/' && p[j] == '/')
  }

  /** No node name is "." or "..". */
  predicate NoRelativeSegment(p: Path)
  {
    forall i :: 0 <= i < |p| && p[i] == '/' ==> !RelativeSegmentAt(p, i + 1)
  }

  /** Cutting a valid path just before one of its slashes leaves a valid path. */
  lemma PrefixValid(p: Path, k: nat)
    requires ValidPath(p) && 1 < k < |p| && p[k] == '/'
    ensures ValidPath(p[..k])
  {
    var q := p[..k];
    assert q[k - 1] != '/';
    assert NoEmptyName(q);
    assert NoRelativeSegment(q) by {
      forall i | 0 <= i < |q| && q[i] == '/'
        ensures !RelativeSegmentAt(q, i + 1)
      {
        assert p[i] == '/';
        assert !RelativeSegmentAt(p, i + 1);
      }
    }
  }

  /** Paths the client refuses although their shape is absolute: relative segments, control characters and code points above U+FFFF. */
  lemma RefusedPaths()
    ensures !ValidPath("/a/.") && !ValidPath("/a/..") && !ValidPath("/a/\U{1}")
    ensures !ValidPath("/\U{1F600}")
  {
    assert IllegalChar("/\U{1F600}"[1]);
    assert "/a/.."[2] == '/' && RelativeSegmentAt("/a/..", 3);
    assert "/a/."[2] == '/' && RelativeSegmentAt("/a/.", 3);
    assert IllegalChar("/a/\U{1}"[3]);
  }

  /** `path.lastIndexOf('/')`, or -1 when there is none. */
  function LastSlash(p: Path): (i: int)
    ensures -1 <= i < |p|
    ensures i >= 0 ==> p[i] == '/'
    ensures forall j :: i < j < |p| ==> p[j] != '/'
  {
    if p == [] then -1
    else if p[|p| - 1] == '/' then |p| - 1
    else LastSlash(p[..|p| - 1])
  }

  /** The parent path: everything before the last slash, or the root when nothing is left. */
  function Parent(p: Path): (r: Path)
    ensures r != ROOT ==> |r| < |p| && r == p[..|r|] && p[|r|] == '/'
    ensures r != ROOT ==> forall j :: |r| < j < |p| ==> p[j] != '/'
    ensures (forall j :: 0 < j < |p| ==> p[j] != '/') ==> r == ROOT
    ensures LastSlash(p) > 1 ==> r != ROOT
  {
    var i := LastSlash(p);
    if i > 0 then p[..i] else ROOT
  }

  /** The parent of a valid path other than the root is a shorter valid path that prefixes it. */
  lemma ParentOfValid(p: Path)
    requires ValidPath(p) && p != ROOT
    ensures ValidPath(Parent(p))
    ensures |Parent(p)| < |p|
    ensures Parent(p) == ROOT <==> |Parent(p)| <= 1
    ensures Parent(p) != ROOT ==> Parent(p) + p[|Parent(p)|..] == p && p[|Parent(p)|] == '/'
  {
    var i := LastSlash(p);
    if i > 0 {
      assert p[i - 1] != '/';
      if i > 1 {
        PrefixValid(p, i);
      }
    }
  }

  /**
   * The paths from the topmost ancestor below the root down to `p` itself,
   * each the parent of the next.
   */
  function Chain(p: Path): (c: seq<Path>)
    requires ValidPath(p) && p != ROOT
    ensures |c| >= 1 && c[|c| - 1] == p
    ensures forall k :: 0 <= k < |c| ==> ValidPath(c[k]) && c[k] != ROOT && |c[k]| <= |p|
    ensures Parent(c[0]) == ROOT
    ensures forall k {:trigger Parent(c[k])} :: 0 < k < |c| ==> Parent(c[k]) == c[k - 1]
    decreases |p|
  {
    ParentOfValid(p);
    var q := Parent(p);
    if |q| > 1 then Chain(q) + [p] else [p]
  }

  /** The paths of `c` that are not keys of `nodes`, in the order of `c`. */
  function Missing(nodes: set<Path>, c: seq<Path>): seq<Path>
  {
    if c == [] then []
    else Missing(nodes, c[..|c| - 1]) + (if c[|c| - 1] in nodes then [] else [c[|c| - 1]])
  }

  lemma {:induction false} MissingAppend(nodes: set<Path>, a: seq<Path>, b: seq<Path>)
    ensures Missing(nodes, a + b) == Missing(nodes, a) + Missing(nodes, b)
  {
    if b == [] {
      assert a + b == a;
    } else {
      assert (a + b)[..|a + b| - 1] == a + b[..|b| - 1];
      MissingAppend(nodes, a, b[..|b| - 1]);
    }
  }

  /**
   * The nodes a recursive create of `p` adds, parents first: nothing when
   * `p` is the root or already present, otherwise what its parent still
   * lacks followed by `p` itself.
   */
  function Pending(nodes: set<Path>, p: Path): (c: seq<Path>)
    ensures forall k :: 0 <= k < |c| ==> |c[k]| <= |p| && c[k] !in nodes
    ensures c != [] <==> |p| > 1 && p !in nodes
    ensures c != [] ==> c[|c| - 1] == p
    decreases |p|
  {
    if |p| <= 1 || p in nodes then [] else Pending(nodes, Parent(p)) + [p]
  }

  /** The pending nodes of a valid path are valid paths other than the root. */
  lemma {:induction false} PendingValid(nodes: set<Path>, p: Path)
    requires ValidPath(p)
    ensures forall q :: q in Pending(nodes, p) ==> ValidPath(q) && q != ROOT
    decreases |p|
  {
    if |p| > 1 && p !in nodes {
      ParentOfValid(p);
      PendingValid(nodes, Parent(p));
    }
  }

  /**
   * The pending nodes of a valid path come parents first: the first one
   * hangs under the root or under a present node, and each later one under
   * the one before it.
   */
  lemma {:induction false} PendingParentsFirst(nodes: set<Path>, p: Path)
    requires ValidPath(p)
    ensures var c := Pending(nodes, p);
      && (c != [] ==> Parent(c[0]) == ROOT || Parent(c[0]) in nodes)
      && (forall k {:trigger Parent(c[k])} :: 0 < k < |c| ==> Parent(c[k]) == c[k - 1])
    decreases |p|
  {
    if |p| > 1 && p !in nodes {
      ParentOfValid(p);
      PendingParentsFirst(nodes, Parent(p));
    }
  }

  /** What is missing from a chain lies on the chain and is absent. */
  lemma {:induction false} MissingWithin(nodes: set<Path>, c: seq<Path>)
    ensures forall q :: q in Missing(nodes, c) ==> q in c && q !in nodes
  {
    if c != [] {
      MissingWithin(nodes, c[..|c| - 1]);
      assert forall q :: q in c[..|c| - 1] ==> q in c;
    }
  }

  /** The pending nodes of a path all lie on its chain of ancestors. */
  lemma {:induction false} PendingOnChain(nodes: set<Path>, p: Path)
    requires ValidPath(p) && p != ROOT
    ensures forall q :: q in Pending(nodes, p) ==> q in Chain(p)
    decreases |p|
  {
    ParentOfValid(p);
    var q := Parent(p);
    if |q| > 1 && p !in nodes {
      PendingOnChain(nodes, q);
      assert Chain(p) == Chain(q) + [p];
    }
  }

  /** A chain whose members are all present has nothing missing. */
  lemma {:induction false} NoneMissing(nodes: set<Path>, c: seq<Path>)
    requires forall k :: 0 <= k < |c| ==> c[k] in nodes
    ensures Missing(nodes, c) == []
  {
    if c != [] {
      NoneMissing(nodes, c[..|c| - 1]);
    }
  }

  /**
   * The store: each node with the payload it was created with (None for a
   * node created without one), and the order in which nodes were created.
   */
  class Store {
    var nodes: map<Path, Option<seq<Byte>>>
    /** The paths created so far, in creation order. */
    var history: seq<Path>

    /** Every node has a valid path, and every node other than the root has its parent in the store. */
    ghost predicate Valid()
      reads this
    {
      && ROOT in nodes
      && (forall p :: p in nodes ==> ValidPath(p))
      && (forall p {:trigger Parent(p)} :: p in nodes && p != ROOT ==> Parent(p) in nodes)
    }

    constructor ()
      ensures Valid()
      ensures nodes == map[ROOT := None] && history == []
    {
      nodes := map[ROOT := None];
      history := [];
    }

    /**
     * `checkExists().forPath(p) != null`. In a valid store an existing node
     * has a valid path and, unless it is the root, an existing parent.
     */
    predicate Exists(p: Path): (r: bool)
      requires Valid()
      reads this
      ensures r <==> p in nodes
      ensures r ==> ValidPath(p)
      ensures r && p != ROOT ==> Parent(p) in nodes
    {
      p in nodes
    }

    /**
     * `create().forPath(p)` or `create().forPath(p, data)`: the service
     * refuses a node that exists or whose parent does not, so a caller must
     * create parents first.
     */
    method Create(p: Path, data: Option<seq<Byte>>)
      requires Valid()
      requires ValidPath(p) && p != ROOT
      requires p !in nodes && Parent(p) in nodes
      modifies this
      ensures Valid()
      ensures nodes == old(nodes)[p := data]
      ensures history == old(history) + [p]
    {
      nodes := nodes[p := data];
      history := history + [p];
    }

    /**
     * In a valid store the pending nodes of a path are exactly the members
     * of its chain of ancestors that are not yet present, in chain order.
     */
    lemma {:induction false} PendingIsMissingChain(p: Path)
      requires Valid()
      requires ValidPath(p) && p != ROOT
      ensures Pending(nodes.Keys, p) == Missing(nodes.Keys, Chain(p))
      decreases |p|
    {
      ParentOfValid(p);
      var q := Parent(p);
      if p in nodes {
        ChainPresent(p);
        NoneMissing(nodes.Keys, Chain(p));
      } else if |q| > 1 {
        PendingIsMissingChain(q);
        MissingAppend(nodes.Keys, Chain(q), [p]);
      } else {
        assert Chain(p) == [p];
      }
    }

    /** In a valid store, a node's whole chain of ancestors is present. */
    lemma {:induction false} ChainPresent(p: Path)
      requires Valid()
      requires p in nodes && p != ROOT
      ensures forall k :: 0 <= k < |Chain(p)| ==> Chain(p)[k] in nodes
      decreases |p|
    {
      ParentOfValid(p);
      var q := Parent(p);
      if |q| > 1 {
        ChainPresent(q);
      }
    }
  }
}
