/** Forests kept in an array: every node knows its parent, its first and last child and its two neighbours. */
module XmlForest {
  import opened Sequences

  /** The links of a node; -1 stands for none. */
  datatype Links = Links(parent: int, child: int, lastChild: int, next: int, previous: int)

  /** The parents of the nodes, in index order, determine all the other links. */
  type Parents = seq<int>

  predicate Rooted(p: Parents) {
    forall i :: 0 <= i < |p| ==> -1 <= p[i] < i
  }

  function LastChild(p: Parents, x: int): (r: int)
    ensures -1 <= r < |p| && (r >= 0 ==> p[r] == x)
    ensures forall j :: r < j < |p| ==> p[j] != x
  {
    if p == [] then -1 else if p[|p| - 1] == x then |p| - 1 else LastChild(p[..|p| - 1], x)
  }

  function FirstChild(p: Parents, x: int): (r: int)
    ensures -1 <= r < |p| && (r >= 0 ==> p[r] == x)
    ensures forall j :: 0 <= j < |p| && (r == -1 || j < r) ==> p[j] != x
  {
    if p == [] then -1
    else
      var r := FirstChild(p[..|p| - 1], x);
      if r < 0 && p[|p| - 1] == x then |p| - 1 else r
  }

  function NextSibling(p: Parents, i: nat): (r: int)
    requires i < |p|
    ensures r == -1 || (i < r < |p| && p[r] == p[i])
    ensures forall j :: i < j < |p| && (r == -1 || j < r) ==> p[j] != p[i]
  {
    if |p| == i + 1 then -1
    else
      var r := NextSibling(p[..|p| - 1], i);
      if r < 0 && p[|p| - 1] == p[i] then |p| - 1 else r
  }

  function PreviousSibling(p: Parents, i: nat): int
    requires i < |p|
  {
    LastChild(p[..i], p[i])
  }

  function ParentsOf(nodes: seq<Links>): (p: Parents)
    ensures |p| == |nodes|
  {
    seq(|nodes|, i requires 0 <= i < |nodes| => nodes[i].parent)
  }

  predicate Linked(nodes: seq<Links>, i: nat)
    requires i < |nodes|
  {
    var p := ParentsOf(nodes);
    nodes[i] == Links(p[i], FirstChild(p, i), LastChild(p, i), NextSibling(p, i), PreviousSibling(p, i))
  }

  /** A well-formed forest: parents come before their children, and every link says what the parents say. */
  ghost predicate Forest(nodes: seq<Links>) {
    Rooted(ParentsOf(nodes)) && forall i :: 0 <= i < |nodes| ==> Linked(nodes, i)
  }

  /** The nodes still open: `x` is the last child of its parent, and so on up to the root. */
  predicate Open(p: Parents, x: int)
    requires Rooted(p) && -1 <= x < |p|
  {
    x == -1 || (LastChild(p, p[x]) == x && Open(p, p[x]))
  }

  function Depth(p: Parents, x: int): nat
    requires Rooted(p) && -1 <= x < |p|
  {
    if x == -1 then 0 else 1 + Depth(p, p[x])
  }

  /** The new node's effect on the links of an old one. */
  function Relinked(node: Links, i: nat, n: nat, parent: int, previous: int): Links {
    Links(node.parent,
          if i == parent && node.child < 0 then n else node.child,
          if i == parent then n else node.lastChild,
          if i == previous then n else node.next,
          node.previous)
  }

  /** Adding a node under an open parent, after that parent's last child, keeps the forest well formed. */
  lemma AddNode(nodes: seq<Links>, parent: int, grown: seq<Links>)
    requires Forest(nodes) && -1 <= parent < |nodes| && |grown| == |nodes| + 1
    requires var previous := LastChild(ParentsOf(nodes), parent);
             && grown[|nodes|] == Links(parent, -1, -1, -1, previous)
             && forall i :: 0 <= i < |nodes| ==> grown[i] == Relinked(nodes[i], i, |nodes|, parent, previous)
    ensures ParentsOf(grown) == ParentsOf(nodes) + [parent] && Forest(grown)
  {
    var p, q, n := ParentsOf(nodes), ParentsOf(grown), |nodes|;
    assert q == p + [parent];
    assert q[..n] == p;
    forall i | 0 <= i < n
      ensures Linked(grown, i)
    {
      assert Linked(nodes, i);
      OldLinks(p, parent, i);
    }
    NewLinks(p, parent);
    assert Linked(grown, n);
  }

  /** What one more node changes for a node `i` before it. */
  lemma OldLinks(p: Parents, parent: int, i: nat)
    requires Rooted(p) && i < |p| && -1 <= parent < |p|
    ensures var q, n := p + [parent], |p|;
            && FirstChild(q, i) == (if i == parent && FirstChild(p, i) < 0 then n else FirstChild(p, i))
            && LastChild(q, i) == (if i == parent then n else LastChild(p, i))
            && NextSibling(q, i) == (if i == LastChild(p, parent) then n else NextSibling(p, i))
            && PreviousSibling(q, i) == PreviousSibling(p, i)
  {
    var q := p + [parent];
    assert q[..|p|] == p;
    assert q[..i] == p[..i];
  }

  lemma NewLinks(p: Parents, parent: int)
    requires Rooted(p) && -1 <= parent < |p|
    ensures var q, n := p + [parent], |p|;
            FirstChild(q, n) == -1 && LastChild(q, n) == -1 && NextSibling(q, n) == -1
            && PreviousSibling(q, n) == LastChild(p, parent)
  {
    var q := p + [parent];
    assert q[..|p|] == p;
  }

  /** Nodes that are open stay open while children are added to the innermost of them. */
  lemma {:induction false} StaysOpen(p: Parents, parent: int, x: int)
    requires Rooted(p) && -1 <= x <= parent < |p| && Open(p, x)
    ensures Rooted(p + [parent]) && Open(p + [parent], x) && Depth(p + [parent], x) == Depth(p, x)
  {
    var q := p + [parent];
    assert q[..|p|] == p;
    if x >= 0 {
      StaysOpen(p, parent, p[x]);
    }
  }

  /** The nodes with parent `x` from index `from` on, in index order. */
  function Children(p: Parents, x: int, from: nat): seq<int>
    requires from <= |p|
    decreases |p| - from
  {
    if from == |p| then [] else (if p[from] == x then [from] else []) + Children(p, x, from + 1)
  }

  /** The nodes met by following `next` from a node. */
  function Follow(nodes: seq<Links>, i: int): seq<int>
    requires Forest(nodes) && -1 <= i < |nodes|
    decreases |nodes| - i
  {
    if i == -1 then []
    else
      assert Linked(nodes, i);
      [i] + if nodes[i].next == -1 then [] else Follow(nodes, nodes[i].next)
  }

  lemma {:induction false} NoChildren(p: Parents, x: int, from: nat, to: nat)
    requires from <= to <= |p| && forall j :: from <= j < to ==> p[j] != x
    ensures Children(p, x, from) == Children(p, x, to)
    decreases |p| - from
  {
    if from < to {
      NoChildren(p, x, from + 1, to);
      assert Children(p, x, from) == [] + Children(p, x, from + 1);
    }
  }

  lemma {:induction false} FollowSiblings(nodes: seq<Links>, i: nat)
    requires Forest(nodes) && i < |nodes|
    ensures Follow(nodes, i) == Children(ParentsOf(nodes), nodes[i].parent, i)
    decreases |nodes| - i
  {
    var p := ParentsOf(nodes);
    assert Linked(nodes, i);
    var next := nodes[i].next;
    NoChildren(p, p[i], i + 1, if next == -1 then |p| else next);
    if next != -1 {
      FollowSiblings(nodes, next);
    }
  }

  /** From the first child the chain of siblings lists exactly the children, in order, up to the last one. */
  lemma SiblingChain(nodes: seq<Links>, x: nat)
    requires Forest(nodes) && x < |nodes|
    ensures -1 <= nodes[x].child < |nodes|
    ensures Follow(nodes, nodes[x].child) == Children(ParentsOf(nodes), x, 0)
    ensures nodes[x].lastChild == if nodes[x].child == -1 then -1
                                  else Follow(nodes, nodes[x].child)[|Follow(nodes, nodes[x].child)| - 1]
  {
    var p := ParentsOf(nodes);
    assert Linked(nodes, x);
    var child := nodes[x].child;
    NoChildren(p, x, 0, if child == -1 then |p| else child);
    if child != -1 {
      FollowSiblings(nodes, child);
      LastOfChildren(p, x, child);
    }
  }

  lemma {:induction false} LastOfChildren(p: Parents, x: int, from: nat)
    requires from <= LastChild(p, x)
    ensures var c := Children(p, x, from); c != [] && c[|c| - 1] == LastChild(p, x)
    decreases |p| - from
  {
    var last := LastChild(p, x);
    if from == last {
      NoChildren(p, x, from + 1, |p|);
    } else {
      LastOfChildren(p, x, from + 1);
    }
  }

  /** `previous` undoes `next`, and `next` undoes `previous`. */
  lemma NeighboursAgree(nodes: seq<Links>, i: nat)
    requires Forest(nodes) && i < |nodes|
    ensures nodes[i].next != -1 ==> i < nodes[i].next < |nodes| && nodes[nodes[i].next].previous == i
    ensures nodes[i].previous != -1 ==> 0 <= nodes[i].previous < i && nodes[nodes[i].previous].next == i
  {
    var p := ParentsOf(nodes);
    assert Linked(nodes, i);
    var next, previous := nodes[i].next, nodes[i].previous;
    if next != -1 {
      assert Linked(nodes, next);
      IsLastChild(p[..next], p[next], i);
    }
    if previous != -1 {
      assert Linked(nodes, previous);
      IsNextSibling(p, previous, i);
    }
  }

  lemma IsLastChild(p: Parents, x: int, i: nat)
    requires i < |p| && p[i] == x && forall j :: i < j < |p| ==> p[j] != x
    ensures LastChild(p, x) == i
  {
  }

  lemma IsNextSibling(p: Parents, i: nat, r: nat)
    requires i < r < |p| && p[r] == p[i] && forall j :: i < j < r ==> p[..r][j] != p[i]
    ensures NextSibling(p, i) == r
  {
    assert forall j :: i < j < r ==> p[j] == p[..r][j];
  }

  /** Whether `a` is `x` or above it; -1 is above everything. */
  predicate OnPath(p: Parents, a: int, x: int)
    requires Rooted(p) && -1 <= x < |p|
  {
    a == x || (x >= 0 && OnPath(p, a, p[x]))
  }

  /** Every node hangs below an ancestor of the one before it: the order of a depth-first walk. */
  ghost predicate Preorder(p: Parents) {
    Rooted(p) && forall j :: 0 < j < |p| ==> OnPath(p, p[j], j - 1)
  }

  /** Walking the forest: a node is visited, and left again once its children have been. */
  datatype Event = Visit(node: int) | Leave(node: int)

  /** The walk by the links, from a node on through its later siblings. */
  function Walk(nodes: seq<Links>, i: nat): seq<Event>
    requires Forest(nodes) && i < |nodes|
    decreases |nodes| - i, 1
  {
    assert Linked(nodes, i);
    Subtree(nodes, i) + if nodes[i].next == -1 then [] else Walk(nodes, nodes[i].next)
  }

  function Subtree(nodes: seq<Links>, i: nat): seq<Event>
    requires Forest(nodes) && i < |nodes|
    decreases |nodes| - i, 0
  {
    assert Linked(nodes, i);
    [Visit(i)] + if nodes[i].child == -1 then [] else Walk(nodes, nodes[i].child) + [Leave(i)]
  }

  /** Leaving `x` and everything above it below `stop`. */
  function Leaves(p: Parents, x: int, stop: int): seq<Event>
    requires Rooted(p) && -1 <= x < |p|
  {
    if x == stop || x == -1 then [] else [Leave(x)] + Leaves(p, p[x], stop)
  }

  /** What happens after the visit of `x`, a node without children so far, until `stop` is the innermost open node. */
  function After(p: Parents, x: nat, stop: int): seq<Event>
    requires Rooted(p) && x < |p|
  {
    if x == stop then [] else Leaves(p, p[x], stop)
  }

  /** The nodes from `i` up to `k` in index order, each left right before the first node that is not below it. */
  function Scan(p: Parents, i: nat, k: nat): seq<Event>
    requires Rooted(p) && i <= k <= |p|
    decreases k
  {
    if i == k then []
    else if i + 1 == k then [Visit(i)]
    else Scan(p, i, k - 1) + After(p, k - 2, p[k - 1]) + [Visit(k - 1)]
  }

  lemma ScanOne(p: Parents, i: nat)
    requires Rooted(p) && i < |p|
    ensures Scan(p, i, i + 1) == [Visit(i)]
  {
  }

  lemma ScanLast(p: Parents, i: nat, k: nat)
    requires Rooted(p) && i + 1 < k <= |p|
    ensures Scan(p, i, k) == Scan(p, i, k - 1) + After(p, k - 2, p[k - 1]) + [Visit(k - 1)]
  {
  }

  lemma {:induction false} ScanJoins(p: Parents, i: nat, m: nat, k: nat)
    requires Rooted(p) && i < m < k <= |p|
    ensures Scan(p, i, k) == Scan(p, i, m) + After(p, m - 1, p[m]) + Scan(p, m, k)
    decreases k
  {
    hide After, Scan;
    ScanLast(p, i, k);
    if m + 1 < k {
      ScanJoins(p, i, m, k - 1);
      ScanLast(p, m, k);
      var a, b, c := Scan(p, i, m), After(p, m - 1, p[m]), Scan(p, m, k - 1);
      Regroup(a, b, c, After(p, k - 2, p[k - 1]), [Visit(k - 1)]);
    } else {
      ScanOne(p, m);
    }
  }

  lemma Regroup<T>(a: seq<T>, b: seq<T>, c: seq<T>, d: seq<T>, e: seq<T>)
    ensures a + b + c + d + e == a + b + (c + d + e)
  {
  }

  lemma {:induction false} PathUp(p: Parents, a: int, b: int, x: int)
    requires Rooted(p) && -1 <= x < |p| && -1 <= b < |p| && OnPath(p, a, b) && OnPath(p, b, x)
    ensures OnPath(p, a, x) && a <= b <= x
  {
    PathBelow(p, a, b);
    PathBelow(p, b, x);
    if b != x {
      PathUp(p, a, b, p[x]);
    }
  }

  lemma {:induction false} PathBelow(p: Parents, a: int, x: int)
    requires Rooted(p) && -1 <= x < |p| && OnPath(p, a, x)
    ensures -1 <= a <= x
  {
    if a != x {
      PathBelow(p, a, p[x]);
    }
  }

  lemma ParentOnPath(p: Parents, i: nat, x: int)
    requires Rooted(p) && i < |p| && -1 <= x < |p| && OnPath(p, i, x)
    ensures OnPath(p, p[i], x)
  {
    assert OnPath(p, p[i], i);
    PathUp(p, p[i], i, x);
  }

  /** Of two nodes on one path, the one with the smaller index is above the other. */
  lemma {:induction false} PathOrder(p: Parents, a: int, b: int, x: int)
    requires Rooted(p) && -1 <= x < |p| && OnPath(p, a, x) && OnPath(p, b, x) && a <= b
    ensures -1 <= b < |p| && OnPath(p, a, b)
  {
    PathBelow(p, a, x);
    PathBelow(p, b, x);
    if b != x {
      PathOrder(p, a, b, p[x]);
    }
  }

  /** Once a walk has left a node it never comes back below it. */
  lemma {:induction false} NeverBack(p: Parents, i: nat, m: nat, j: nat)
    requires Preorder(p) && i < m <= j < |p| && p[m] < i
    ensures !OnPath(p, i, j)
    decreases j
  {
    if OnPath(p, i, j) {
      if j == m {
        PathBelow(p, i, p[m]);
      } else {
        assert OnPath(p, p[j], j - 1);
        PathUp(p, i, p[j], j - 1);
        NeverBack(p, i, m, j - 1);
      }
    }
  }

  /** A node's first child comes right behind it. */
  lemma ChildIsNext(p: Parents, i: nat)
    requires Preorder(p) && i < |p| && FirstChild(p, i) != -1
    ensures FirstChild(p, i) == i + 1
  {
    var child := FirstChild(p, i);
    if p[i + 1] != i {
      assert OnPath(p, p[i + 1], i);
      PathBelow(p, p[i + 1], i);
      NeverBack(p, i, i + 1, child);
    }
  }

  lemma {:induction false} LeavesOneMore(p: Parents, x: int, i: nat)
    requires Rooted(p) && -1 <= x < |p| && i < |p| && OnPath(p, i, x)
    ensures Leaves(p, x, i) + [Leave(i)] == Leaves(p, x, p[i])
  {
    PathBelow(p, i, x);
    if x != i {
      PathBelow(p, i, p[x]);
      LeavesOneMore(p, p[x], i);
    }
  }

  /** No parent between `i` and `e` lies before `v`. */
  ghost predicate AtLeast(p: Parents, v: int, i: nat, e: nat) {
    forall j :: i < j < e && j < |p| ==> p[j] >= v
  }

  lemma AtLeastJoins(p: Parents, v: int, w: int, i: nat, m: nat, e: nat)
    requires i < m < |p| && AtLeast(p, w, i, m) && p[m] >= v && AtLeast(p, v, m, e) && w >= v
    ensures AtLeast(p, v, i, e)
  {
  }

  lemma AtLeastLower(p: Parents, v: int, w: int, i: nat, e: nat)
    requires AtLeast(p, w, i, e) && w >= v
    ensures AtLeast(p, v, i, e)
  {
  }

  /** From `e` on the nodes are no longer below a parent that was open at `i`. */
  ghost predicate Ends(p: Parents, parent: int, i: nat, e: nat)
    requires Rooted(p)
  {
    i < e <= |p| && AtLeast(p, parent, i, e) && (e < |p| ==> p[e] < parent) && OnPath(p, parent, e - 1)
  }

  ghost predicate Scanned(events: seq<Event>, p: Parents, i: nat, e: nat, stop: int)
    requires Rooted(p)
  {
    i < e <= |p| && events == Scan(p, i, e) + After(p, e - 1, stop)
  }

  /** A walk without the later siblings of `i` is the scan of the nodes below it. */
  lemma {:induction false} SubtreeIsScan(nodes: seq<Links>, i: nat) returns (e: nat)
    requires Forest(nodes) && Preorder(ParentsOf(nodes)) && i < |nodes|
    ensures var p := ParentsOf(nodes); Ends(p, i, i, e) && Scanned(Subtree(nodes, i), p, i, e, p[i])
    decreases |nodes| - i, 0
  {
    var p := ParentsOf(nodes);
    assert Linked(nodes, i) && Rooted(p);
    hide Walk, Scanned, Ends, Preorder, Forest, FirstChild, LastChild, NextSibling, PreviousSibling, Rooted;
    if nodes[i].child == -1 {
      e := i + 1;
      Childless(p, i);
    } else {
      ChildIsNext(p, i);
      e := WalkIsScan(nodes, i + 1);
      Inside(p, i, e, Walk(nodes, i + 1));
    }
  }

  lemma Childless(p: Parents, i: nat)
    requires Preorder(p) && i < |p| && FirstChild(p, i) == -1
    ensures Ends(p, i, i, i + 1) && Scanned([Visit(i)] + [], p, i, i + 1, p[i])
  {
    if i + 1 < |p| {
      assert OnPath(p, p[i + 1], i);
      PathBelow(p, p[i + 1], i);
    }
  }

  lemma Inside(p: Parents, i: nat, e: nat, inner: seq<Event>)
    requires Rooted(p) && i + 1 < |p| && p[i + 1] == i && Ends(p, i, i + 1, e) && Scanned(inner, p, i + 1, e, i)
    ensures Ends(p, i, i, e) && Scanned([Visit(i)] + (inner + [Leave(i)]), p, i, e, p[i])
  {
    assert Ends(p, i, i, e);
    hide Scan, After;
    ScanJoins(p, i, i + 1, e);
    ScanOne(p, i);
    AfterLeaving(p, i, e);
    Leaving([Visit(i)], Scan(p, i + 1, e), After(p, e - 1, i), [Leave(i)]);
  }

  lemma AfterLeaving(p: Parents, i: nat, e: nat)
    requires Rooted(p) && i + 1 < e <= |p| && p[i + 1] == i && OnPath(p, i, e - 1)
    ensures After(p, i, p[i + 1]) == [] && After(p, e - 1, i) + [Leave(i)] == After(p, e - 1, p[i])
  {
    LeavesOneMore(p, p[e - 1], i);
  }

  lemma Leaving<T>(a: seq<T>, b: seq<T>, c: seq<T>, d: seq<T>)
    ensures a + (b + c + d) == a + [] + b + (c + d)
  {
  }

  /** The next sibling is where the nodes below end, if the walk goes on under the same parent there. */
  lemma NextIsAtEnd(nodes: seq<Links>, i: nat, e: nat)
    requires Forest(nodes) && Preorder(ParentsOf(nodes)) && i < |nodes| && Ends(ParentsOf(nodes), i, i, e)
    ensures var p := ParentsOf(nodes);
            && nodes[i].next == (if e < |p| && p[e] == p[i] then e else -1) && (e < |p| ==> p[e] <= p[i])
  {
    assert Linked(nodes, i);
    hide Preorder, Ends;
    AfterEnd(ParentsOf(nodes), i, e);
  }

  lemma AfterEnd(p: Parents, i: nat, e: nat)
    requires Preorder(p) && i < |p| && Ends(p, i, i, e)
    ensures e <= |p| && NextSibling(p, i) == (if e < |p| && p[e] == p[i] then e else -1)
    ensures e < |p| ==> p[e] <= p[i]
  {
    hide NextSibling;
    if e < |p| {
      assert OnPath(p, p[e], e - 1);
      PathOrder(p, p[e], i, e - 1);
      PathBelow(p, p[e], p[i]);
    }
    if e < |p| && p[e] == p[i] {
      IsNextSibling(p, i, e);
    } else {
      forall j | i < j < |p|
        ensures p[j] != p[i]
      {
        if p[j] == p[i] {
          NeverBack(p, p[i], e, j);
        }
      }
    }
  }

  lemma WithSiblings(p: Parents, i: nat, inner: nat, e: nat, subtree: seq<Event>, later: seq<Event>)
    requires Rooted(p) && i < |p| && Ends(p, i, i, inner) && Scanned(subtree, p, i, inner, p[i])
    requires inner < |p| && p[inner] == p[i] && Ends(p, p[i], inner, e) && Scanned(later, p, inner, e, p[i])
    ensures Ends(p, p[i], i, e) && Scanned(subtree + later, p, i, e, p[i])
  {
    AtLeastLower(p, p[i], i, i, inner);
    AtLeastJoins(p, p[i], p[i], i, inner, e);
    hide Scan, After, AtLeast;
    ScanJoins(p, i, inner, e);
    Pairs(Scan(p, i, inner), After(p, inner - 1, p[inner]), Scan(p, inner, e), After(p, e - 1, p[i]));
  }

  lemma Pairs<T>(a: seq<T>, b: seq<T>, c: seq<T>, d: seq<T>)
    ensures (a + b) + (c + d) == a + b + c + d
  {
  }

  lemma WithoutSiblings(p: Parents, i: nat, e: nat)
    requires Rooted(p) && i < |p| && Ends(p, i, i, e) && (e < |p| ==> p[e] < p[i])
    ensures Ends(p, p[i], i, e)
  {
    AtLeastLower(p, p[i], i, i, e);
    ParentOnPath(p, i, e - 1);
  }

  /** A walk is the scan of the nodes up to the first that is not below the parent it started under. */
  lemma {:induction false} WalkIsScan(nodes: seq<Links>, i: nat) returns (e: nat)
    requires Forest(nodes) && Preorder(ParentsOf(nodes)) && i < |nodes|
    ensures var p := ParentsOf(nodes); Ends(p, p[i], i, e) && Scanned(Walk(nodes, i), p, i, e, p[i])
    decreases |nodes| - i, 1
  {
    var p := ParentsOf(nodes);
    assert Rooted(p);
    hide Scanned, Ends, Forest, Linked, Subtree, Preorder, Rooted;
    e := SubtreeIsScan(nodes, i);
    NextIsAtEnd(nodes, i, e);
    assert Subtree(nodes, i) + [] == Subtree(nodes, i);
    if nodes[i].next == -1 {
      WithoutSiblings(p, i, e);
    } else {
      var inner := e;
      e := WalkIsScan(nodes, inner);
      WithSiblings(p, i, inner, e, Subtree(nodes, i), Walk(nodes, inner));
    }
  }

  /** Walking the whole forest visits the nodes as a scan in index order does. */
  lemma WalkVisitsAll(nodes: seq<Links>)
    requires Forest(nodes) && Preorder(ParentsOf(nodes)) && nodes != []
    ensures var p := ParentsOf(nodes); Walk(nodes, 0) == Scan(p, 0, |p|) + After(p, |p| - 1, -1)
  {
    hide Scan, After, Walk, OnPath;
    var e := WalkIsScan(nodes, 0);
  }

  function Visits(events: seq<Event>): seq<int> {
    if events == [] then []
    else (if events[0].Visit? then [events[0].node] else []) + Visits(events[1..])
  }

  lemma VisitsFirst(events: seq<Event>)
    requires events != []
    ensures Visits(events) == (if events[0].Visit? then [events[0].node] else []) + Visits(events[1..])
  {
  }

  lemma {:induction false} VisitsJoin(a: seq<Event>, b: seq<Event>)
    ensures Visits(a + b) == Visits(a) + Visits(b)
  {
    if a == [] {
      assert a + b == b;
    } else {
      VisitsFirst(a);
      VisitsFirst(a + b);
      assert (a + b)[1..] == a[1..] + b;
      hide Visits;
      VisitsJoin(a[1..], b);
      Associative(if a[0].Visit? then [a[0].node] else [], Visits(a[1..]), Visits(b));
    }
  }

  lemma {:induction false} LeavesVisitNothing(p: Parents, x: int, stop: int)
    requires Rooted(p) && -1 <= x < |p|
    ensures Visits(Leaves(p, x, stop)) == []
  {
    if x != stop && x != -1 {
      LeavesVisitNothing(p, p[x], stop);
      VisitsJoin([Leave(x)], Leaves(p, p[x], stop));
    }
  }

  lemma VisitsOne(i: int)
    ensures Visits([Visit(i)]) == [i] && Visits([]) == []
  {
    assert [Visit(i)][1..] == [];
  }

  function UpTo(k: nat): seq<int> {
    seq(k, i => i)
  }

  lemma {:induction false} ScanInOrder(p: Parents, k: nat)
    requires Rooted(p) && k <= |p|
    ensures Visits(Scan(p, 0, k)) == UpTo(k)
  {
    hide Visits, Leaves;
    VisitsOne(k - 1);
    if k > 1 {
      ScanInOrder(p, k - 1);
      OneMoreVisit(p, k);
      assert UpTo(k - 1) + [k - 1] == UpTo(k);
    }
  }

  lemma OneMoreVisit(p: Parents, k: nat)
    requires Rooted(p) && 1 < k <= |p|
    ensures Visits(Scan(p, 0, k)) == Visits(Scan(p, 0, k - 1)) + [k - 1]
  {
    ScanLast(p, 0, k);
    LeavesVisitNothing(p, p[k - 2], p[k - 1]);
    VisitsOne(k - 1);
    hide Visits, Scan, Leaves;
    var a, b, c := Scan(p, 0, k - 1), After(p, k - 2, p[k - 1]), [Visit(k - 1)];
    VisitsJoin(a + b, c);
    VisitsJoin(a, b);
  }

  /** A walk by the links visits every node exactly once, in index order. */
  lemma WalkInOrder(nodes: seq<Links>)
    requires Forest(nodes) && Preorder(ParentsOf(nodes)) && nodes != []
    ensures Visits(Walk(nodes, 0)) == UpTo(|nodes|)
  {
    var p := ParentsOf(nodes);
    WalkVisitsAll(nodes);
    LeavesVisitNothing(p, p[|p| - 1], -1);
    hide Walk, Scan, Leaves;
    VisitsJoin(Scan(p, 0, |p|), After(p, |p| - 1, -1));
    ScanInOrder(p, |p|);
    assert Visits([]) == [];
  }

  /** What a walk has done when all nodes are visited and `parent` is the innermost one still open. */
  function Walked(p: Parents, parent: int): seq<Event>
    requires Rooted(p)
  {
    if p == [] then [] else Scan(p, 0, |p|) + After(p, |p| - 1, parent)
  }

  /** A forest being built depth first: `parent` is the innermost open node and `events` what a walk has done. */
  ghost predicate Built(nodes: seq<Links>, parent: int, previous: int, events: seq<Event>) {
    var p := ParentsOf(nodes);
    && Forest(nodes) && Preorder(p) && -1 <= parent < |p| && Open(p, parent) && previous == LastChild(p, parent)
    && OnPath(p, parent, |p| - 1) && events == Walked(p, parent)
  }

  lemma {:induction false} PrefixPath(p: Parents, last: int, a: int, x: int)
    requires Rooted(p) && Rooted(p + [last]) && -1 <= x < |p|
    ensures OnPath(p + [last], a, x) == OnPath(p, a, x)
  {
    if x >= 0 && a != x {
      PrefixPath(p, last, a, p[x]);
    }
  }

  lemma {:induction false} PrefixLeaves(p: Parents, last: int, x: int, stop: int)
    requires Rooted(p) && Rooted(p + [last]) && -1 <= x < |p|
    ensures Leaves(p + [last], x, stop) == Leaves(p, x, stop)
  {
    if x >= 0 && x != stop {
      PrefixLeaves(p, last, p[x], stop);
    }
  }

  lemma {:induction false} PrefixScan(p: Parents, last: int, k: nat)
    requires Rooted(p) && Rooted(p + [last]) && k <= |p|
    ensures Scan(p + [last], 0, k) == Scan(p, 0, k)
  {
    if k > 1 {
      PrefixScan(p, last, k - 1);
      PrefixLeaves(p, last, p[k - 2], p[k - 1]);
    }
  }

  /** The walk of a forest with one more node, which is visited last. */
  lemma WalkGrows(p: Parents, parent: int)
    requires Rooted(p) && -1 <= parent < |p|
    ensures var q := p + [parent];
            Rooted(q) && Walked(q, parent) == Walked(q, |p|) == Walked(p, parent) + [Visit(|p|)]
  {
    var q, n := p + [parent], |p|;
    assert Rooted(q);
    NothingAfter(q);
    if n == 0 {
      ScanOne(q, 0);
    } else {
      ScanLast(q, 0, n + 1);
      PrefixScan(p, parent, n);
      PrefixLeaves(p, parent, p[n - 1], parent);
      assert After(q, n - 1, parent) == After(p, n - 1, parent);
    }
    hide Scan, After;
    assert Walked(q, parent) == Walked(q, n) == Scan(q, 0, n + 1) + [];
  }

  lemma NothingAfter(q: Parents)
    requires Rooted(q) && q != []
    ensures After(q, |q| - 1, q[|q| - 1]) == After(q, |q| - 1, |q| - 1) == []
  {
  }

  lemma WalkEnds(p: Parents, parent: nat)
    requires Rooted(p) && parent < |p| && OnPath(p, parent, |p| - 1)
    ensures Walked(p, p[parent]) == if parent == |p| - 1 then Walked(p, parent) else Walked(p, parent) + [Leave(parent)]
  {
    AfterEnds(p, parent);
    hide Scan, After;
    Associative(Scan(p, 0, |p|), After(p, |p| - 1, parent), [Leave(parent)]);
  }

  lemma AfterEnds(p: Parents, parent: nat)
    requires Rooted(p) && parent < |p| && OnPath(p, parent, |p| - 1)
    ensures After(p, |p| - 1, p[parent])
            == if parent == |p| - 1 then After(p, |p| - 1, parent) else After(p, |p| - 1, parent) + [Leave(parent)]
  {
    hide Leaves;
    var x := |p| - 1;
    assert p[parent] < parent;
    if parent < x {
      assert OnPath(p, parent, p[x]);
      hide OnPath;
      LeavesOneMore(p, p[x], parent);
    } else {
      NothingAfter(p);
    }
  }

  lemma PreorderGrows(p: Parents, parent: int)
    requires Preorder(p) && -1 <= parent < |p| && OnPath(p, parent, |p| - 1)
    ensures Preorder(p + [parent])
    ensures OnPath(p + [parent], parent, |p|) && OnPath(p + [parent], |p|, |p|)
  {
    var q := p + [parent];
    assert Rooted(q);
    forall j | 0 < j < |q|
      ensures OnPath(q, q[j], j - 1)
    {
      PrefixPath(p, parent, q[j], j - 1);
    }
  }

  lemma OpenedNode(p: Parents, parent: int)
    requires Rooted(p) && -1 <= parent < |p| && Rooted(p + [parent]) && Open(p + [parent], parent)
    ensures LastChild(p + [parent], parent) == |p| && Open(p + [parent], |p|)
  {
  }

  /** A node is added under the open parent; it may become the innermost open node itself. */
  lemma BuildNode(nodes: seq<Links>, parent: int, previous: int, events: seq<Event>, grown: seq<Links>, opens: bool)
    requires Built(nodes, parent, previous, events) && |grown| == |nodes| + 1
    requires grown[|nodes|] == Links(parent, -1, -1, -1, previous)
    requires forall i :: 0 <= i < |nodes| ==> grown[i] == Relinked(nodes[i], i, |nodes|, parent, previous)
    ensures ParentsOf(grown) == ParentsOf(nodes) + [parent]
    ensures Built(grown, if opens then |nodes| else parent, if opens then -1 else |nodes|, events + [Visit(|nodes|)])
  {
    hide Walked, Open, OnPath, LastChild, FirstChild, NextSibling;
    var p, n := ParentsOf(nodes), |nodes|;
    AddNode(nodes, parent, grown);
    assert Rooted(p);
    hide Forest, Linked, Rooted;
    PreorderGrows(p, parent);
    WalkGrows(p, parent);
    StaysOpen(p, parent, parent);
    NewLinks(p, parent);
    OpenedNode(p, parent);
  }

  /** The innermost open node is closed. */
  lemma BuildEnd(nodes: seq<Links>, parent: int, previous: int, events: seq<Event>)
    requires Built(nodes, parent, previous, events) && parent != -1
    ensures Built(nodes, nodes[parent].parent, parent, if parent == |nodes| - 1 then events else events + [Leave(parent)])
  {
    hide Walked, Forest, Preorder, OnPath, Open, LastChild, Rooted, ParentsOf;
    var p := ParentsOf(nodes);
    ParentIs(nodes, parent);
    OpenUp(p, parent);
    ParentOnPath(p, parent, |nodes| - 1);
    WalkEnds(p, parent);
  }

  lemma ParentIs(nodes: seq<Links>, i: nat)
    requires Preorder(ParentsOf(nodes)) && i < |nodes|
    ensures Rooted(ParentsOf(nodes)) && -1 <= nodes[i].parent < i && ParentsOf(nodes)[i] == nodes[i].parent
  {
    var p := ParentsOf(nodes);
    assert p[i] == nodes[i].parent;
  }

  lemma OpenUp(p: Parents, x: nat)
    requires Rooted(p) && x < |p| && Open(p, x)
    ensures Open(p, p[x]) && LastChild(p, p[x]) == x
  {
  }

  lemma BuiltBounds(nodes: seq<Links>, parent: int, previous: int, events: seq<Event>)
    requires Built(nodes, parent, previous, events)
    ensures Rooted(ParentsOf(nodes)) && -1 <= parent < |nodes| && -1 <= previous < |nodes|
    ensures Open(ParentsOf(nodes), parent)
  {
  }

  lemma TopLevel(p: Parents, x: int)
    requires Rooted(p) && -1 <= x < |p|
    ensures Depth(p, x) == 0 <==> x == -1
  {
  }

  lemma DepthGrows(p: Parents, parent: int)
    requires Rooted(p) && -1 <= parent < |p| && Open(p, parent)
    ensures Rooted(p + [parent])
    ensures Depth(p + [parent], parent) == Depth(p, parent) && Depth(p + [parent], |p|) == Depth(p, parent) + 1
  {
    StaysOpen(p, parent, parent);
  }

  lemma NewLast(p: Parents, parent: int, x: int)
    ensures LastChild(p + [parent], x) == if x == parent then |p| else LastChild(p, x)
  {
    assert (p + [parent])[..|p|] == p;
  }

  lemma {:induction false} PrefixDepth(p: Parents, last: int, x: int)
    requires Rooted(p) && Rooted(p + [last]) && -1 <= x < |p|
    ensures Depth(p + [last], x) == Depth(p, x)
  {
    if x >= 0 {
      PrefixDepth(p, last, p[x]);
    }
  }
}
