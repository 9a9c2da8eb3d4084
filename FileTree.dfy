/**
 * getIndexedFileDataTree: a tree of file-data nodes together with an index
 * from a node's path to the node, which `add`, `set` and `clear` keep in step
 * with the tree.
 *
 * Node objects live in a store `cells` and are referred to by address, so the
 * index and a parent's `children` share the same objects, as references do in
 * the source. Every child address is larger than its parent's, so the object
 * graph has no cycles, and every object has at most one parent. A node given
 * to the tree (the root, or a node passed to `add` or `set`) is a value that
 * is placed in the store as fresh objects.
 *
 * Two points of the source are modelled as intended:
 *  - `set` and `clear` look the parent up with a bare `get(...)`, which names
 *    no function in scope; the intended call is `this.get`, as here.
 *  - `index` and `removeFromIndex` test `fileData.expandable` while the node
 *    records elsewhere carry `isExpandable`; both are the one flag
 *    `FileData.expandable` here.
 */
module FileTree {
  import opened Wrappers

  // ---------------------------------------------------------------------------
  // Nodes as values
  // ---------------------------------------------------------------------------

  /** A node's file data; `expandable` is the flag the source reads as `expandable`/`isExpandable`. */
  datatype FileData = FileData(path: string, fileType: string, expandable: bool)

  /** A node as a caller builds it: file data and child nodes. */
  datatype Node = Node(fileData: FileData, children: seq<Node>)

  /** The paths `index(n)` puts into the index: n's own, and those below it through expandable nodes. */
  function PathSet(n: Node): set<string>
    decreases n, 1
  {
    {n.fileData.path} + (if n.fileData.expandable then PathSetList(n.children) else {})
  }

  /** The paths indexed for each node of `ns`. */
  function PathSetList(ns: seq<Node>): set<string>
    decreases ns, 0
  {
    if ns == [] then {} else PathSetList(ns[..|ns| - 1]) + PathSet(ns[|ns| - 1])
  }

  /** No two nodes that `index(n)` would visit share a path. */
  predicate DistinctPaths(n: Node)
    decreases n, 1
  {
    n.fileData.expandable ==> n.fileData.path !in PathSetList(n.children) && DistinctList(n.children)
  }

  /** No two nodes that indexing each of `ns` would visit share a path. */
  predicate DistinctList(ns: seq<Node>)
    decreases ns, 0
  {
    ns == [] ||
    (DistinctList(ns[..|ns| - 1]) && DistinctPaths(ns[|ns| - 1]) && PathSetList(ns[..|ns| - 1]) !! PathSet(ns[|ns| - 1]))
  }

  // ---------------------------------------------------------------------------
  // The object store
  // ---------------------------------------------------------------------------

  /** A node object: its file data and the addresses of its children. */
  datatype Cell = Cell(fileData: FileData, children: seq<nat>)

  /** Every child address is in the store and larger than its parent's address. */
  ghost predicate Forward(cells: seq<Cell>) {
    forall a, i :: 0 <= a < |cells| && 0 <= i < |cells[a].children| ==> a < cells[a].children[i] < |cells|
  }

  /** `parent` records, for every child, the one object that holds it. */
  ghost predicate ParentsRecorded(cells: seq<Cell>, parent: seq<nat>) {
    |parent| == |cells| &&
    forall a, i :: 0 <= a < |cells| && 0 <= i < |cells[a].children| && cells[a].children[i] < |cells| ==>
      parent[cells[a].children[i]] == a
  }

  /** The node value of the object at address `a`. */
  ghost function Tree(cells: seq<Cell>, a: nat): Node
    requires Forward(cells) && a < |cells|
    decreases |cells| - a
  {
    var ch := cells[a].children;
    Node(cells[a].fileData, seq(|ch|, j requires 0 <= j < |ch| => Tree(cells, ch[j])))
  }

  /**
   * What `index(a)` adds to the index: a's path to a, then, if a is
   * expandable, what indexing each child adds, later entries overriding.
   */
  ghost function Collect(cells: seq<Cell>, a: nat): map<string, nat>
    requires Forward(cells) && a < |cells|
    decreases |cells| - a, |cells[a].children| + 1
  {
    map[cells[a].fileData.path := a] +
    (if cells[a].fileData.expandable then CollectChildren(cells, a, |cells[a].children|) else map[])
  }

  /** What indexing the first `k` children of `a` adds. */
  ghost function CollectChildren(cells: seq<Cell>, a: nat, k: nat): map<string, nat>
    requires Forward(cells) && a < |cells| && k <= |cells[a].children|
    decreases |cells| - a, k
  {
    if k == 0 then map[]
    else CollectChildren(cells, a, k - 1) + Collect(cells, cells[a].children[k - 1])
  }

  /** The keys `set` and `clear` delete for parent `q`: its children's subtrees, when q is expandable. */
  ghost function DroppedKeys(cells: seq<Cell>, q: nat): set<string>
    requires Forward(cells) && q < |cells|
  {
    if cells[q].fileData.expandable then CollectChildren(cells, q, |cells[q].children|).Keys else {}
  }

  /** The object at `a` is in index `m` under its own path. */
  ghost predicate IsIndexed(cells: seq<Cell>, m: map<string, nat>, a: nat) {
    a < |cells| && cells[a].fileData.path in m && m[cells[a].fileData.path] == a
  }

  /** Every entry of `m` is an object of the store whose path is the entry's key. */
  ghost predicate KeyedByPath(cells: seq<Cell>, m: map<string, nat>) {
    forall p :: p in m ==> m[p] < |cells| && cells[m[p]].fileData.path == p
  }

  /** The children of every indexed expandable object are indexed too. */
  ghost predicate Closed(cells: seq<Cell>, m: map<string, nat>) {
    forall a, i ::
      0 <= a < |cells| && IsIndexed(cells, m, a) && cells[a].fileData.expandable && 0 <= i < |cells[a].children| ==>
        IsIndexed(cells, m, cells[a].children[i])
  }

  /** Every entry of `m1` is an entry of `m2`. */
  ghost predicate Submap(m1: map<string, nat>, m2: map<string, nat>) {
    forall p :: p in m1 ==> p in m2 && m2[p] == m1[p]
  }

  // ---------------------------------------------------------------------------
  // Lemmas about the store
  // ---------------------------------------------------------------------------

  /** Map union is associative. */
  lemma UnionAssoc(m1: map<string, nat>, m2: map<string, nat>, m3: map<string, nat>)
    ensures (m1 + m2) + m3 == m1 + (m2 + m3)
  {
  }

  /** Indexing one more child of `a` adds that child's subtree. */
  lemma CollectChildrenStep(cells: seq<Cell>, a: nat, k: nat, m: map<string, nat>)
    requires Forward(cells) && a < |cells| && k < |cells[a].children|
    ensures m + CollectChildren(cells, a, k) + Collect(cells, cells[a].children[k]) == m + CollectChildren(cells, a, k + 1)
  {
    UnionAssoc(m, CollectChildren(cells, a, k), Collect(cells, cells[a].children[k]));
  }

  /** Entering `a` under its path and then its children's subtrees gives Collect(cells, a). */
  lemma CollectUnfold(cells: seq<Cell>, a: nat, m: map<string, nat>)
    requires Forward(cells) && a < |cells|
    ensures cells[a].fileData.expandable ==>
              m[cells[a].fileData.path := a] + CollectChildren(cells, a, |cells[a].children|) == m + Collect(cells, a)
    ensures !cells[a].fileData.expandable ==> m[cells[a].fileData.path := a] == m + Collect(cells, a)
  {
    UnionAssoc(m, map[cells[a].fileData.path := a], CollectChildren(cells, a, |cells[a].children|));
    assert m[cells[a].fileData.path := a] == m + map[cells[a].fileData.path := a];
  }

  /** Deleting the keys of one more child's subtree of `a`. */
  lemma RemoveChildStep(cells: seq<Cell>, a: nat, k: nat, m: map<string, nat>)
    requires Forward(cells) && a < |cells| && k < |cells[a].children|
    ensures m - ({cells[a].fileData.path} + CollectChildren(cells, a, k).Keys) - Collect(cells, cells[a].children[k]).Keys
            == m - ({cells[a].fileData.path} + CollectChildren(cells, a, k + 1).Keys)
  {
    assert CollectChildren(cells, a, k + 1).Keys == CollectChildren(cells, a, k).Keys + Collect(cells, cells[a].children[k]).Keys;
  }

  /** The keys of `a` are its own path and, when it is expandable, its children's subtrees' keys. */
  lemma RemoveUnfold(cells: seq<Cell>, a: nat, m: map<string, nat>)
    requires Forward(cells) && a < |cells|
    ensures cells[a].fileData.expandable ==>
              m - ({cells[a].fileData.path} + CollectChildren(cells, a, |cells[a].children|).Keys) == m - Collect(cells, a).Keys
    ensures !cells[a].fileData.expandable ==> m - {cells[a].fileData.path} == m - Collect(cells, a).Keys
  {
  }

  /** Cells that agree from `a` on give `a` the same node value. */
  lemma {:induction false} TreeFrame(c1: seq<Cell>, c2: seq<Cell>, a: nat)
    requires Forward(c1) && Forward(c2) && a < |c1| <= |c2|
    requires forall b :: a <= b < |c1| ==> c2[b] == c1[b]
    ensures Tree(c2, a) == Tree(c1, a)
    decreases |c1| - a
  {
    var ch := c1[a].children;
    forall j | 0 <= j < |ch|
      ensures Tree(c2, ch[j]) == Tree(c1, ch[j])
    {
      TreeFrame(c1, c2, ch[j]);
    }
    assert Tree(c2, a).children == Tree(c1, a).children;
  }

  /** Cells that agree from `a` on give `a` the same collected entries. */
  lemma {:induction false} CollectFrame(c1: seq<Cell>, c2: seq<Cell>, a: nat)
    requires Forward(c1) && Forward(c2) && a < |c1| <= |c2|
    requires forall b :: a <= b < |c1| ==> c2[b] == c1[b]
    ensures Collect(c2, a) == Collect(c1, a)
    decreases |c1| - a, |c1[a].children| + 1
  {
    CollectChildrenFrame(c1, c2, a, |c1[a].children|);
  }

  /** The children's part of CollectFrame. */
  lemma {:induction false} CollectChildrenFrame(c1: seq<Cell>, c2: seq<Cell>, a: nat, k: nat)
    requires Forward(c1) && Forward(c2) && a < |c1| <= |c2| && k <= |c1[a].children|
    requires forall b :: a <= b < |c1| ==> c2[b] == c1[b]
    ensures CollectChildren(c2, a, k) == CollectChildren(c1, a, k)
    decreases |c1| - a, k
  {
    if k > 0 {
      CollectChildrenFrame(c1, c2, a, k - 1);
      CollectFrame(c1, c2, c1[a].children[k - 1]);
    }
  }

  /** Collected entries are objects at or after `a`, each under its own path, and include a's path. */
  lemma {:induction false} CollectSound(cells: seq<Cell>, a: nat)
    requires Forward(cells) && a < |cells|
    ensures KeyedByPath(cells, Collect(cells, a))
    ensures cells[a].fileData.path in Collect(cells, a)
    ensures forall p :: p in Collect(cells, a) ==> a <= Collect(cells, a)[p]
    decreases |cells| - a, |cells[a].children| + 1
  {
    CollectChildrenSound(cells, a, |cells[a].children|);
  }

  /** The children's part of CollectSound: entries lie strictly after `a`. */
  lemma {:induction false} CollectChildrenSound(cells: seq<Cell>, a: nat, k: nat)
    requires Forward(cells) && a < |cells| && k <= |cells[a].children|
    ensures KeyedByPath(cells, CollectChildren(cells, a, k))
    ensures forall p :: p in CollectChildren(cells, a, k) ==> a < CollectChildren(cells, a, k)[p]
    decreases |cells| - a, k
  {
    if k > 0 {
      CollectChildrenSound(cells, a, k - 1);
      CollectSound(cells, cells[a].children[k - 1]);
    }
  }

  /** The keys collected from `a` are the paths of a's node value. */
  lemma {:induction false} CollectKeys(cells: seq<Cell>, a: nat)
    requires Forward(cells) && a < |cells|
    ensures Collect(cells, a).Keys == PathSet(Tree(cells, a))
    decreases |cells| - a, |cells[a].children| + 1
  {
    CollectChildrenKeys(cells, a, |cells[a].children|);
    assert Tree(cells, a).children[..|cells[a].children|] == Tree(cells, a).children;
  }

  /** The children's part of CollectKeys. */
  lemma {:induction false} CollectChildrenKeys(cells: seq<Cell>, a: nat, k: nat)
    requires Forward(cells) && a < |cells| && k <= |cells[a].children|
    ensures CollectChildren(cells, a, k).Keys == PathSetList(Tree(cells, a).children[..k])
    decreases |cells| - a, k
  {
    var ns := Tree(cells, a).children[..k];
    if k > 0 {
      CollectChildrenKeys(cells, a, k - 1);
      CollectKeys(cells, cells[a].children[k - 1]);
      assert ns[..k - 1] == Tree(cells, a).children[..k - 1];
      assert ns[k - 1] == Tree(cells, cells[a].children[k - 1]);
    }
  }

  /** A union of two closed indexes with disjoint keys is closed, and keeps every entry of both. */
  lemma ClosedUnion(cells: seq<Cell>, m1: map<string, nat>, m2: map<string, nat>)
    requires KeyedByPath(cells, m1) && Closed(cells, m1)
    requires KeyedByPath(cells, m2) && Closed(cells, m2)
    requires m1.Keys !! m2.Keys
    ensures KeyedByPath(cells, m1 + m2) && Closed(cells, m1 + m2)
    ensures forall b :: IsIndexed(cells, m1, b) ==> IsIndexed(cells, m1 + m2, b)
    ensures forall b :: IsIndexed(cells, m2, b) ==> IsIndexed(cells, m1 + m2, b)
  {
    var u := m1 + m2;
    forall b, i | 0 <= b < |cells| && IsIndexed(cells, u, b) && cells[b].fileData.expandable && 0 <= i < |cells[b].children|
      ensures IsIndexed(cells, u, cells[b].children[i])
    {
      if cells[b].fileData.path in m2 {
        assert IsIndexed(cells, m2, b);
      } else {
        assert IsIndexed(cells, m1, b);
      }
    }
  }

  /** Appending objects to the store keeps an index keyed and closed. */
  lemma ClosedExtend(c1: seq<Cell>, c2: seq<Cell>, m: map<string, nat>)
    requires KeyedByPath(c1, m) && Closed(c1, m)
    requires |c1| <= |c2| && c2[..|c1|] == c1
    ensures KeyedByPath(c2, m) && Closed(c2, m)
    ensures forall b :: IsIndexed(c1, m, b) ==> IsIndexed(c2, m, b)
  {
    forall b | 0 <= b < |c1|
      ensures c2[b] == c1[b]
    {
      assert c2[..|c1|][b] == c2[b];
    }
    forall b, i | 0 <= b < |c2| && IsIndexed(c2, m, b) && c2[b].fileData.expandable && 0 <= i < |c2[b].children|
      ensures IsIndexed(c2, m, c2[b].children[i])
    {
      assert IsIndexed(c1, m, b);
    }
  }

  /** The entries collected from `a`, when a's node value has distinct paths, include a itself and are closed. */
  lemma {:induction false} CollectClosed(cells: seq<Cell>, a: nat)
    requires Forward(cells) && a < |cells| && DistinctPaths(Tree(cells, a))
    ensures IsIndexed(cells, Collect(cells, a), a)
    ensures Closed(cells, Collect(cells, a))
    decreases |cells| - a, |cells[a].children| + 1
  {
    var pa := cells[a].fileData.path;
    var m1 := map[pa := a];
    CollectSound(cells, a);
    if cells[a].fileData.expandable {
      var n := |cells[a].children|;
      var m2 := CollectChildren(cells, a, n);
      assert Tree(cells, a).children[..n] == Tree(cells, a).children;
      CollectChildrenClosed(cells, a, n);
      CollectChildrenKeys(cells, a, n);
      CollectChildrenSound(cells, a, n);
      assert pa !in m2;
      var u := m1 + m2;
      assert u == Collect(cells, a);
      forall b, i | 0 <= b < |cells| && IsIndexed(cells, u, b) && cells[b].fileData.expandable && 0 <= i < |cells[b].children|
        ensures IsIndexed(cells, u, cells[b].children[i])
      {
        if b == a {
          assert IsIndexed(cells, m2, cells[a].children[i]);
        } else {
          assert IsIndexed(cells, m2, b);
        }
      }
    } else {
      assert Collect(cells, a) == m1;
    }
  }

  /** The children's part of CollectClosed: each of the first `k` children is indexed, and the entries are closed. */
  lemma {:induction false} CollectChildrenClosed(cells: seq<Cell>, a: nat, k: nat)
    requires Forward(cells) && a < |cells| && k <= |cells[a].children|
    requires DistinctList(Tree(cells, a).children[..k])
    ensures forall j :: 0 <= j < k ==> IsIndexed(cells, CollectChildren(cells, a, k), cells[a].children[j])
    ensures Closed(cells, CollectChildren(cells, a, k))
    decreases |cells| - a, k
  {
    if k > 0 {
      var ns := Tree(cells, a).children[..k];
      var c := cells[a].children[k - 1];
      assert ns[..k - 1] == Tree(cells, a).children[..k - 1];
      assert ns[k - 1] == Tree(cells, c);
      CollectChildrenClosed(cells, a, k - 1);
      CollectClosed(cells, c);
      CollectChildrenKeys(cells, a, k - 1);
      CollectKeys(cells, c);
      CollectChildrenSound(cells, a, k - 1);
      CollectSound(cells, c);
      var m1 := CollectChildren(cells, a, k - 1);
      var m2 := Collect(cells, c);
      assert CollectChildren(cells, a, k) == m1 + m2;
      assert m1.Keys !! m2.Keys;
      ClosedUnion(cells, m1, m2);
      forall j | 0 <= j < k
        ensures IsIndexed(cells, m1 + m2, cells[a].children[j])
      {
        if j < k - 1 {
          assert IsIndexed(cells, m1, cells[a].children[j]);
        }
      }
    }
  }

  /** The entries collected from an indexed object of a closed index are entries of that index. */
  lemma {:induction false} IndexedSubtree(cells: seq<Cell>, m: map<string, nat>, a: nat)
    requires Forward(cells) && Closed(cells, m) && IsIndexed(cells, m, a)
    ensures Submap(Collect(cells, a), m)
    decreases |cells| - a, |cells[a].children| + 1
  {
    if cells[a].fileData.expandable {
      IndexedChildren(cells, m, a, |cells[a].children|);
    }
  }

  /** The children's part of IndexedSubtree. */
  lemma {:induction false} IndexedChildren(cells: seq<Cell>, m: map<string, nat>, a: nat, k: nat)
    requires Forward(cells) && Closed(cells, m) && IsIndexed(cells, m, a)
    requires cells[a].fileData.expandable && k <= |cells[a].children|
    ensures Submap(CollectChildren(cells, a, k), m)
    decreases |cells| - a, k
  {
    if k > 0 {
      IndexedChildren(cells, m, a, k - 1);
      IndexedSubtree(cells, m, cells[a].children[k - 1]);
    }
  }

  /** The entries of `u` are keyed by path, and the parent of each is `a` or is an entry too. */
  ghost predicate ParentsOfChildren(cells: seq<Cell>, parent: seq<nat>, u: map<string, nat>, a: nat) {
    |parent| == |cells| && KeyedByPath(cells, u) &&
    forall p :: p in u ==> parent[u[p]] == a || IsIndexed(cells, u, parent[u[p]])
  }

  /** The entries of `u` are keyed by path, and the parent of each entry other than `a` is an entry too. */
  ghost predicate ParentsOfSubtree(cells: seq<Cell>, parent: seq<nat>, u: map<string, nat>, a: nat) {
    |parent| == |cells| && KeyedByPath(cells, u) &&
    forall p :: p in u && u[p] != a ==> IsIndexed(cells, u, parent[u[p]])
  }

  /**
   * In the subtree collected from an indexed object `a`, the parent of every
   * object other than a is itself in that subtree.
   */
  lemma {:induction false} ParentsInSubtree(cells: seq<Cell>, parent: seq<nat>, m: map<string, nat>, a: nat)
    requires Forward(cells) && ParentsRecorded(cells, parent) && Closed(cells, m) && IsIndexed(cells, m, a)
    ensures ParentsOfSubtree(cells, parent, Collect(cells, a), a)
    decreases |cells| - a, |cells[a].children| + 1
  {
    IndexedSubtree(cells, m, a);
    CollectSound(cells, a);
    if cells[a].fileData.expandable {
      var n := |cells[a].children|;
      ParentsInChildren(cells, parent, m, a, n);
      CollectChildrenSound(cells, a, n);
    }
  }

  /**
   * Joining the entries of the first children of `a` and of one more child `c`
   * of a, both drawn from one index `m`: every entry's parent is still a or
   * collected.
   */
  lemma ParentsOfUnion(cells: seq<Cell>, parent: seq<nat>, m: map<string, nat>, a: nat, c: nat,
                       m1: map<string, nat>, m2: map<string, nat>)
    requires ParentsOfChildren(cells, parent, m1, a) && ParentsOfSubtree(cells, parent, m2, c)
    requires Submap(m1, m) && Submap(m2, m) && c < |cells| && parent[c] == a
    ensures ParentsOfChildren(cells, parent, m1 + m2, a)
  {
    var u := m1 + m2;
    forall p | p in u
      ensures parent[u[p]] == a || IsIndexed(cells, u, parent[u[p]])
    {
      if p in m2 {
        if m2[p] != c {
          assert IsIndexed(cells, m2, parent[m2[p]]);
        }
      } else {
        var x := parent[m1[p]];
        if x != a {
          assert IsIndexed(cells, m1, x);
          var px := cells[x].fileData.path;
          assert px in m2 ==> m2[px] == m[px] == m1[px];
          assert u[px] == x;
        }
      }
    }
  }

  /**
   * The children's part of ParentsInSubtree: the parent of every object
   * collected from the first `k` children is `a` or is itself collected.
   */
  lemma {:induction false} ParentsInChildren(cells: seq<Cell>, parent: seq<nat>, m: map<string, nat>, a: nat, k: nat)
    requires Forward(cells) && ParentsRecorded(cells, parent) && Closed(cells, m) && IsIndexed(cells, m, a)
    requires cells[a].fileData.expandable && k <= |cells[a].children|
    ensures ParentsOfChildren(cells, parent, CollectChildren(cells, a, k), a)
    decreases |cells| - a, k
  {
    if k > 0 {
      var c := cells[a].children[k - 1];
      var m1 := CollectChildren(cells, a, k - 1);
      var m2 := Collect(cells, c);
      assert ParentsOfChildren(cells, parent, m1, a) && Submap(m1, m) by {
        ParentsInChildren(cells, parent, m, a, k - 1);
        IndexedChildren(cells, m, a, k - 1);
      }
      assert parent[c] == a && IsIndexed(cells, m, c);
      assert ParentsOfSubtree(cells, parent, m2, c) && Submap(m2, m) by {
        ParentsInSubtree(cells, parent, m, c);
        IndexedSubtree(cells, m, c);
      }
      assert CollectChildren(cells, a, k) == m1 + m2;
      ParentsOfUnion(cells, parent, m, a, c, m1, m2);
    }
  }

  /**
   * Replacing the children of indexed object `q`: dropping the keys of q's
   * old subtrees from a valid index and adding a closed index `m2` of the new
   * children gives a keyed, closed index in which every object up to q keeps
   * its entry.
   */
  lemma ReplaceChildrenKeepsIndex(c0: seq<Cell>, par0: seq<nat>, m0: map<string, nat>, q: nat,
                                  c1: seq<Cell>, m2: map<string, nat>)
    requires Forward(c0) && ParentsRecorded(c0, par0) && KeyedByPath(c0, m0) && Closed(c0, m0) && IsIndexed(c0, m0, q)
    requires Forward(c1) && |c0| <= |c1| && c1[q].fileData == c0[q].fileData
    requires forall a :: 0 <= a < |c0| && a != q ==> c1[a] == c0[a]
    requires KeyedByPath(c1, m2) && Closed(c1, m2)
    requires forall i :: 0 <= i < |c1[q].children| ==> IsIndexed(c1, m2, c1[q].children[i])
    requires m2.Keys !! (m0.Keys - DroppedKeys(c0, q))
    ensures KeyedByPath(c1, (m0 - DroppedKeys(c0, q)) + m2)
    ensures Closed(c1, (m0 - DroppedKeys(c0, q)) + m2)
    ensures forall b: nat :: b <= q && IsIndexed(c0, m0, b) ==> IsIndexed(c1, (m0 - DroppedKeys(c0, q)) + m2, b)
  {
    var dropped := DroppedKeys(c0, q);
    var m1 := m0 - dropped;
    var u := m1 + m2;
    if c0[q].fileData.expandable {
      var n := |c0[q].children|;
      IndexedChildren(c0, m0, q, n);
      ParentsInChildren(c0, par0, m0, q, n);
      CollectChildrenSound(c0, q, n);
    }
    forall b | 0 <= b < |c0|
      ensures c1[b].fileData == c0[b].fileData
    {
    }
    assert KeyedByPath(c1, m1);
    forall b: nat | b <= q && IsIndexed(c0, m0, b)
      ensures IsIndexed(c1, u, b)
    {
      assert c0[b].fileData.path !in dropped;
    }
    forall b, i | 0 <= b < |c1| && IsIndexed(c1, u, b) && c1[b].fileData.expandable && 0 <= i < |c1[b].children|
      ensures IsIndexed(c1, u, c1[b].children[i])
    {
      var pb := c1[b].fileData.path;
      if pb in m2 {
        assert IsIndexed(c1, m2, b);
      } else if b != q {
        assert m0[pb] == b && pb !in dropped;
        var c := c0[b].children[i];
        assert IsIndexed(c0, m0, c);
        assert par0[c] == b;
        var pc := c0[c].fileData.path;
        if pc in dropped {
          assert false;
        }
        assert pc in m1;
        assert c1[c].fileData == c0[c].fileData;
      }
    }
  }

  /** Appending an indexed object to the children of object `q` keeps an index keyed and closed. */
  lemma AppendChildKeepsIndex(c1: seq<Cell>, c2: seq<Cell>, m: map<string, nat>, q: nat, r: nat)
    requires KeyedByPath(c1, m) && Closed(c1, m) && IsIndexed(c1, m, r)
    requires q < |c1| && c2 == c1[q := c1[q].(children := c1[q].children + [r])]
    ensures KeyedByPath(c2, m) && Closed(c2, m)
    ensures forall b :: IsIndexed(c1, m, b) ==> IsIndexed(c2, m, b)
  {
    forall b, i | 0 <= b < |c2| && IsIndexed(c2, m, b) && c2[b].fileData.expandable && 0 <= i < |c2[b].children|
      ensures IsIndexed(c2, m, c2[b].children[i])
    {
      assert IsIndexed(c1, m, b);
      if b == q && i == |c1[q].children| {
        assert c2[b].children[i] == r;
      } else {
        assert c2[b].children[i] == c1[b].children[i];
      }
    }
  }

  /**
   * The keys `set` and `clear` drop for an indexed object `q` are entries of
   * the index for objects after q (its descendants), so neither q's own key
   * nor the root's is dropped.
   */
  lemma DroppedKeysBelow(cells: seq<Cell>, parent: seq<nat>, m: map<string, nat>, q: nat)
    requires ValidStore(cells, parent, m) && IsIndexed(cells, m, q)
    ensures forall p :: p in DroppedKeys(cells, q) ==> p in m && q < m[p]
    ensures cells[q].fileData.path !in DroppedKeys(cells, q)
    ensures cells[0].fileData.path !in DroppedKeys(cells, q)
  {
    if cells[q].fileData.expandable {
      IndexedChildren(cells, m, q, |cells[q].children|);
      CollectChildrenSound(cells, q, |cells[q].children|);
    }
  }

  // ---------------------------------------------------------------------------
  // Reachability
  // ---------------------------------------------------------------------------

  /** `route` walks from the root object down through expandable objects, one child at a time. */
  ghost predicate IsRoute(cells: seq<Cell>, route: seq<nat>) {
    0 < |route| && route[0] == 0 &&
    (forall i :: 0 <= i < |route| ==> route[i] < |cells|) &&
    forall i :: 0 <= i < |route| - 1 ==>
      cells[route[i]].fileData.expandable && route[i + 1] in cells[route[i]].children
  }

  /** In a closed index holding the root, every object reachable from the root is indexed under its path. */
  lemma {:induction false} RoutesAreIndexed(cells: seq<Cell>, m: map<string, nat>, route: seq<nat>)
    requires Closed(cells, m) && IsIndexed(cells, m, 0) && IsRoute(cells, route)
    ensures IsIndexed(cells, m, route[|route| - 1])
    decreases |route|
  {
    if |route| > 1 {
      var pre := route[..|route| - 1];
      assert IsRoute(cells, pre);
      RoutesAreIndexed(cells, m, pre);
      var b := route[|route| - 2];
      assert route[|route| - 2 + 1] in cells[route[|route| - 2]].children;
      var i :| 0 <= i < |cells[b].children| && cells[b].children[i] == route[|route| - 1];
    }
  }

  /** The invariant of an indexed tree: see IndexedFileDataTree.Valid. */
  ghost predicate ValidStore(cells: seq<Cell>, parent: seq<nat>, index: map<string, nat>) {
    0 < |cells| && Forward(cells) && ParentsRecorded(cells, parent) &&
    KeyedByPath(cells, index) && IsIndexed(cells, index, 0) && Closed(cells, index)
  }

  /**
   * Indexing a node value freshly placed at the end of a valid store, whose
   * paths are distinct and not yet keys, keeps the store valid, indexes the
   * new object, and keeps every old entry.
   */
  lemma IndexFreshNode(c0: seq<Cell>, par0: seq<nat>, m0: map<string, nat>, c1: seq<Cell>, par1: seq<nat>, r: nat)
    requires ValidStore(c0, par0, m0)
    requires r == |c0| < |c1| && c1[..r] == c0 && Forward(c1) && ParentsRecorded(c1, par1)
    requires DistinctPaths(Tree(c1, r)) && PathSet(Tree(c1, r)) !! m0.Keys
    ensures ValidStore(c1, par1, m0 + Collect(c1, r))
    ensures IsIndexed(c1, m0 + Collect(c1, r), r)
    ensures forall p :: p in m0 ==> (m0 + Collect(c1, r))[p] == m0[p]
    ensures Collect(c1, r).Keys == PathSet(Tree(c1, r))
    ensures forall b, i :: 0 <= b < |c1| && 0 <= i < |c1[b].children| ==> c1[b].children[i] != r
  {
    CollectSound(c1, r);
    CollectKeys(c1, r);
    CollectClosed(c1, r);
    ClosedExtend(c0, c1, m0);
    ClosedUnion(c1, m0, Collect(c1, r));
    forall b, i | 0 <= b < |c1| && 0 <= i < |c1[b].children|
      ensures c1[b].children[i] != r
    {
      if b < r {
        assert c1[..r][b] == c1[b];
      }
    }
  }

  /** Appending indexed object `r`, which no object holds yet, to the children of `q` keeps a store valid. */
  lemma AttachChild(c1: seq<Cell>, par1: seq<nat>, m: map<string, nat>, q: nat, r: nat, c2: seq<Cell>)
    requires ValidStore(c1, par1, m) && IsIndexed(c1, m, r) && q < r
    requires forall b, i :: 0 <= b < |c1| && 0 <= i < |c1[b].children| ==> c1[b].children[i] != r
    requires c2 == c1[q := c1[q].(children := c1[q].children + [r])]
    ensures ValidStore(c2, par1[r := q], m)
    ensures Tree(c2, r) == Tree(c1, r) && Collect(c2, r) == Collect(c1, r)
  {
    assert Forward(c2);
    assert ParentsRecorded(c2, par1[r := q]);
    AppendChildKeepsIndex(c1, c2, m, q, r);
    TreeFrame(c1, c2, r);
    CollectFrame(c1, c2, r);
  }

  /**
   * Giving indexed object `q` of a valid store new children whose node
   * values have distinct paths, outside the keys that stay, and indexing
   * them after dropping the old children's keys, keeps the store valid and
   * keeps q indexed.
   */
  lemma ReplaceChildren(c0: seq<Cell>, par0: seq<nat>, m0: map<string, nat>, q: nat, c1: seq<Cell>, par1: seq<nat>)
    requires ValidStore(c0, par0, m0) && IsIndexed(c0, m0, q)
    requires Forward(c1) && ParentsRecorded(c1, par1) && |c0| <= |c1| && c1[q].fileData == c0[q].fileData
    requires forall a :: 0 <= a < |c0| && a != q ==> c1[a] == c0[a]
    requires DistinctList(Tree(c1, q).children)
    requires PathSetList(Tree(c1, q).children) !! (m0.Keys - DroppedKeys(c0, q))
    ensures ValidStore(c1, par1, (m0 - DroppedKeys(c0, q)) + CollectChildren(c1, q, |c1[q].children|))
    ensures IsIndexed(c1, (m0 - DroppedKeys(c0, q)) + CollectChildren(c1, q, |c1[q].children|), q)
  {
    var n := |c1[q].children|;
    assert Tree(c1, q).children[..n] == Tree(c1, q).children;
    CollectChildrenClosed(c1, q, n);
    CollectChildrenKeys(c1, q, n);
    CollectChildrenSound(c1, q, n);
    ReplaceChildrenKeepsIndex(c0, par0, m0, q, c1, CollectChildren(c1, q, n));
  }

  // ---------------------------------------------------------------------------
  // Exactness: every entry is reachable
  // ---------------------------------------------------------------------------

  /**
   * Object `b` hangs below object `d`: following the recorded holders up from
   * b reaches d, every holder on the way being expandable and really holding
   * the object below it.
   */
  ghost predicate Descends(cells: seq<Cell>, parent: seq<nat>, b: nat, d: nat)
    decreases b
  {
    b == d ||
    (d < b < |cells| && |parent| == |cells| && parent[b] < b &&
     cells[parent[b]].fileData.expandable && b in cells[parent[b]].children &&
     Descends(cells, parent, parent[b], d))
  }

  /** Object `b` is reachable from the root through expandable objects. */
  ghost predicate Attached(cells: seq<Cell>, parent: seq<nat>, b: nat) {
    Descends(cells, parent, b, 0)
  }

  /**
   * The index holds only reachable objects: together with RoutesAreIndexed
   * (every reachable object is indexed), the index holds exactly the objects
   * reachable from the root through expandable objects.
   */
  ghost predicate Exact(cells: seq<Cell>, parent: seq<nat>, index: map<string, nat>) {
    forall p :: p in index ==> Attached(cells, parent, index[p])
  }

  /** The holder chain of `b` passes through an edge from object `q` to one of its children. */
  ghost predicate ThroughChildOf(cells: seq<Cell>, parent: seq<nat>, b: nat, q: nat)
    decreases b
  {
    0 < b < |cells| && |parent| == |cells| && parent[b] < b &&
    (parent[b] == q || ThroughChildOf(cells, parent, parent[b], q))
  }

  /** Hanging below is transitive. */
  lemma {:induction false} DescendsTrans(cells: seq<Cell>, parent: seq<nat>, b: nat, a: nat, d: nat)
    requires Descends(cells, parent, b, a) && Descends(cells, parent, a, d)
    ensures Descends(cells, parent, b, d)
    decreases b
  {
    if b != a {
      DescendsTrans(cells, parent, parent[b], a, d);
    }
  }

  /** An edge-crossing chain lies below the edge. */
  lemma {:induction false} ThroughBelow(cells: seq<Cell>, parent: seq<nat>, b: nat, q: nat)
    ensures ThroughChildOf(cells, parent, b, q) ==> q < b
    decreases b
  {
    if 0 < b < |cells| && |parent| == |cells| && parent[b] < b {
      ThroughBelow(cells, parent, parent[b], q);
    }
  }

  /** A child of an expandable object hangs below it. */
  lemma ChildDescends(cells: seq<Cell>, parent: seq<nat>, a: nat, i: nat)
    requires Forward(cells) && ParentsRecorded(cells, parent) && a < |cells| && cells[a].fileData.expandable
    requires i < |cells[a].children|
    ensures Descends(cells, parent, cells[a].children[i], a)
  {
    var c := cells[a].children[i];
    assert parent[c] == a && Descends(cells, parent, a, a);
  }

  /** Every object collected from `a` hangs below a. */
  lemma {:induction false} CollectDescends(cells: seq<Cell>, parent: seq<nat>, a: nat)
    requires Forward(cells) && ParentsRecorded(cells, parent) && a < |cells|
    ensures forall p :: p in Collect(cells, a) ==> Descends(cells, parent, Collect(cells, a)[p], a)
    decreases |cells| - a, |cells[a].children| + 1
  {
    if cells[a].fileData.expandable {
      CollectChildrenDescends(cells, parent, a, |cells[a].children|);
    }
  }

  /** The children's part of CollectDescends. */
  lemma {:induction false} CollectChildrenDescends(cells: seq<Cell>, parent: seq<nat>, a: nat, k: nat)
    requires Forward(cells) && ParentsRecorded(cells, parent) && a < |cells|
    requires cells[a].fileData.expandable && k <= |cells[a].children|
    ensures forall p :: p in CollectChildren(cells, a, k) ==> Descends(cells, parent, CollectChildren(cells, a, k)[p], a)
    decreases |cells| - a, k
  {
    if k > 0 {
      var c := cells[a].children[k - 1];
      CollectChildrenDescends(cells, parent, a, k - 1);
      CollectDescends(cells, parent, c);
      ChildDescends(cells, parent, a, k - 1);
      var m1 := CollectChildren(cells, a, k - 1);
      var m2 := Collect(cells, c);
      forall p | p in m1 + m2
        ensures Descends(cells, parent, (m1 + m2)[p], a)
      {
        if p in m2 {
          DescendsTrans(cells, parent, m2[p], c, a);
        }
      }
    }
  }

  /** The keys collected from a child of expandable object `y` are among those collected from its first `k` children. */
  lemma {:induction false} ChildKeysCollected(cells: seq<Cell>, y: nat, i: nat, k: nat)
    requires Forward(cells) && y < |cells| && i < k <= |cells[y].children|
    ensures Collect(cells, cells[y].children[i]).Keys <= CollectChildren(cells, y, k).Keys
    decreases k
  {
    if i < k - 1 {
      ChildKeysCollected(cells, y, i, k - 1);
    }
  }

  /**
   * When the holder chain of reachable object `b` crosses an edge from `q`,
   * q is expandable and b's keys are among those set and clear drop for q.
   */
  lemma {:induction false} ThroughChildKeys(cells: seq<Cell>, parent: seq<nat>, b: nat, q: nat)
    requires Forward(cells) && Attached(cells, parent, b) && ThroughChildOf(cells, parent, b, q)
    ensures q < |cells| && cells[q].fileData.expandable
    ensures Collect(cells, b).Keys <= DroppedKeys(cells, q)
    decreases b
  {
    var x := parent[b];
    var i :| 0 <= i < |cells[x].children| && cells[x].children[i] == b;
    ChildKeysCollected(cells, x, i, |cells[x].children|);
    if x != q {
      ThroughChildKeys(cells, parent, x, q);
    }
  }

  /** A reachable object stays reachable when objects are appended and children are only appended. */
  lemma {:induction false} AttachedGrows(c0: seq<Cell>, par0: seq<nat>, c1: seq<Cell>, par1: seq<nat>, b: nat)
    requires |par0| == |c0| && |par1| == |c1| && |c0| <= |c1|
    requires forall a :: 0 <= a < |c0| ==> par1[a] == par0[a] && c1[a].fileData == c0[a].fileData
    requires forall a :: 0 <= a < |c0| ==> c0[a].children <= c1[a].children
    requires b < |c0| && Attached(c0, par0, b)
    ensures Attached(c1, par1, b)
    decreases b
  {
    if b != 0 {
      var x := par0[b];
      AttachedGrows(c0, par0, c1, par1, x);
      var i :| 0 <= i < |c0[x].children| && c0[x].children[i] == b;
      assert c1[x].children[i] == b;
    }
  }

  /**
   * When object `q` gets new children and nothing else changes, a reachable
   * object stays reachable unless its holder chain crossed an edge from q.
   */
  lemma {:induction false} AttachedSurvives(c0: seq<Cell>, par0: seq<nat>, q: nat, c1: seq<Cell>, par1: seq<nat>, b: nat)
    requires |par0| == |c0| && |par1| == |c1| && q < |c0| <= |c1|
    requires forall a :: 0 <= a < |c0| ==> par1[a] == par0[a]
    requires forall a :: 0 <= a < |c0| && a != q ==> c1[a] == c0[a]
    requires c1[q].fileData == c0[q].fileData
    requires b < |c0| && Attached(c0, par0, b)
    ensures Attached(c1, par1, b) || ThroughChildOf(c0, par0, b, q)
    decreases b
  {
    if b != 0 {
      var x := par0[b];
      if x != q {
        AttachedSurvives(c0, par0, q, c1, par1, x);
      }
    }
  }

  /** Every object collected from a reachable object is reachable. */
  lemma CollectAttached(cells: seq<Cell>, parent: seq<nat>, a: nat)
    requires Forward(cells) && ParentsRecorded(cells, parent) && a < |cells| && Attached(cells, parent, a)
    ensures forall p :: p in Collect(cells, a) ==> Attached(cells, parent, Collect(cells, a)[p])
  {
    CollectDescends(cells, parent, a);
    forall p | p in Collect(cells, a)
      ensures Attached(cells, parent, Collect(cells, a)[p])
    {
      DescendsTrans(cells, parent, Collect(cells, a)[p], a, 0);
    }
  }

  /** Every object collected from the children of a reachable expandable object is reachable. */
  lemma CollectChildrenAttached(cells: seq<Cell>, parent: seq<nat>, a: nat, k: nat)
    requires Forward(cells) && ParentsRecorded(cells, parent) && a < |cells| && Attached(cells, parent, a)
    requires cells[a].fileData.expandable && k <= |cells[a].children|
    ensures forall p :: p in CollectChildren(cells, a, k) ==> Attached(cells, parent, CollectChildren(cells, a, k)[p])
  {
    CollectChildrenDescends(cells, parent, a, k);
    forall p | p in CollectChildren(cells, a, k)
      ensures Attached(cells, parent, CollectChildren(cells, a, k)[p])
    {
      DescendsTrans(cells, parent, CollectChildren(cells, a, k)[p], a, 0);
    }
  }

  /** A route's last object is reachable. */
  lemma {:induction false} RouteAttached(cells: seq<Cell>, parent: seq<nat>, route: seq<nat>)
    requires Forward(cells) && ParentsRecorded(cells, parent) && IsRoute(cells, route)
    ensures Attached(cells, parent, route[|route| - 1])
    decreases |route|
  {
    if |route| > 1 {
      var pre := route[..|route| - 1];
      assert IsRoute(cells, pre);
      RouteAttached(cells, parent, pre);
      var b := route[|route| - 2];
      assert route[|route| - 2 + 1] in cells[route[|route| - 2]].children;
      var i :| 0 <= i < |cells[b].children| && cells[b].children[i] == route[|route| - 1];
      assert parent[route[|route| - 1]] == b;
    }
  }

  /** A reachable object is the end of a route. */
  lemma {:induction false} AttachedRoute(cells: seq<Cell>, parent: seq<nat>, b: nat) returns (route: seq<nat>)
    requires b < |cells| && Attached(cells, parent, b)
    ensures IsRoute(cells, route) && route[|route| - 1] == b
    decreases b
  {
    if b == 0 {
      route := [0];
    } else {
      var pre := AttachedRoute(cells, parent, parent[b]);
      route := pre + [b];
      assert route[..|pre|] == pre;
    }
  }

  /** Exactness is the statement that every entry of the index is the end of a route. */
  lemma ExactIffRoutes(cells: seq<Cell>, parent: seq<nat>, index: map<string, nat>)
    requires ValidStore(cells, parent, index)
    ensures Exact(cells, parent, index) <==>
            forall p :: p in index ==> exists route :: IsRoute(cells, route) && route[|route| - 1] == index[p]
  {
    if Exact(cells, parent, index) {
      forall p | p in index
        ensures exists route :: IsRoute(cells, route) && route[|route| - 1] == index[p]
      {
        var route := AttachedRoute(cells, parent, index[p]);
      }
    }
    if forall p :: p in index ==> exists route :: IsRoute(cells, route) && route[|route| - 1] == index[p] {
      forall p | p in index
        ensures Attached(cells, parent, index[p])
      {
        var route :| IsRoute(cells, route) && route[|route| - 1] == index[p];
        RouteAttached(cells, parent, route);
      }
    }
  }

  /** Indexing the root of a store whose paths are distinct gives a valid index, and an exact one. */
  lemma RootIndex(cells: seq<Cell>, parent: seq<nat>)
    requires Forward(cells) && ParentsRecorded(cells, parent) && 0 < |cells| && DistinctPaths(Tree(cells, 0))
    ensures ValidStore(cells, parent, Collect(cells, 0))
    ensures Exact(cells, parent, Collect(cells, 0))
  {
    CollectSound(cells, 0);
    CollectClosed(cells, 0);
    CollectAttached(cells, parent, 0);
  }

  /** add on an expandable indexed parent: the new object hangs below a reachable object, so the index stays exact. */
  lemma AttachKeepsExact(c0: seq<Cell>, par0: seq<nat>, m0: map<string, nat>, c1: seq<Cell>,
                         q: nat, r: nat, c2: seq<Cell>, par2: seq<nat>)
    requires ValidStore(c0, par0, m0) && Exact(c0, par0, m0) && IsIndexed(c0, m0, q) && c0[q].fileData.expandable
    requires r == |c0| < |c1| && c1[..r] == c0
    requires c2 == c1[q := c1[q].(children := c1[q].children + [r])]
    requires Forward(c2) && ParentsRecorded(c2, par2) && par2[..r] == par0 && par2[r] == q
    ensures Exact(c2, par2, m0 + Collect(c2, r))
  {
    forall a | 0 <= a < |c0|
      ensures par2[a] == par0[a] && c2[a].fileData == c0[a].fileData && c0[a].children <= c2[a].children
    {
      assert par2[..r][a] == par2[a];
      assert c1[..r][a] == c1[a];
    }
    AttachedGrows(c0, par0, c2, par2, q);
    assert Attached(c2, par2, r);
    CollectAttached(c2, par2, r);
    forall p | p in m0 + Collect(c2, r)
      ensures Attached(c2, par2, (m0 + Collect(c2, r))[p])
    {
      if p !in Collect(c2, r) {
        AttachedGrows(c0, par0, c2, par2, m0[p]);
      }
    }
  }

  /**
   * set and clear on an indexed parent `q` that is expandable, or that gets
   * no children: the entries kept do not lie below q's old children, and the
   * new ones hang below q, so the index stays exact.
   */
  lemma ReplaceKeepsExact(c0: seq<Cell>, par0: seq<nat>, m0: map<string, nat>, q: nat, c1: seq<Cell>, par1: seq<nat>)
    requires ValidStore(c0, par0, m0) && Exact(c0, par0, m0) && IsIndexed(c0, m0, q)
    requires Forward(c1) && ParentsRecorded(c1, par1) && |c0| <= |c1| && c1[q].fileData == c0[q].fileData
    requires forall a :: 0 <= a < |c0| && a != q ==> c1[a] == c0[a]
    requires forall a :: 0 <= a < |c0| ==> par1[a] == par0[a]
    requires c0[q].fileData.expandable || c1[q].children == []
    ensures Exact(c1, par1, (m0 - DroppedKeys(c0, q)) + CollectChildren(c1, q, |c1[q].children|))
  {
    var n := |c1[q].children|;
    var dropped := DroppedKeys(c0, q);
    var m2 := CollectChildren(c1, q, n);
    AttachedSurvives(c0, par0, q, c1, par1, q);
    ThroughBelow(c0, par0, q, q);
    if n > 0 {
      CollectChildrenAttached(c1, par1, q, n);
    }
    forall p | p in (m0 - dropped) + m2
      ensures Attached(c1, par1, ((m0 - dropped) + m2)[p])
    {
      if p !in m2 {
        var b := m0[p];
        AttachedSurvives(c0, par0, q, c1, par1, b);
        if ThroughChildOf(c0, par0, b, q) {
          ThroughChildKeys(c0, par0, b, q);
          CollectSound(c0, b);
        }
      }
    }
  }

  /** set on a parent that is not expandable indexes new objects that the root does not reach. */
  lemma SetBelowFileDetaches(c0: seq<Cell>, par0: seq<nat>, m0: map<string, nat>, q: nat, c1: seq<Cell>, par1: seq<nat>)
    requires ValidStore(c0, par0, m0) && IsIndexed(c0, m0, q) && !c0[q].fileData.expandable
    requires Forward(c1) && ParentsRecorded(c1, par1) && |c0| <= |c1| && c1[q].fileData == c0[q].fileData
    requires forall a :: 0 <= a < |c0| && a != q ==> c1[a] == c0[a]
    requires DistinctList(Tree(c1, q).children) && 0 < |c1[q].children|
    ensures !Exact(c1, par1, (m0 - DroppedKeys(c0, q)) + CollectChildren(c1, q, |c1[q].children|))
  {
    var n := |c1[q].children|;
    var m2 := CollectChildren(c1, q, n);
    assert Tree(c1, q).children[..n] == Tree(c1, q).children;
    CollectChildrenClosed(c1, q, n);
    var x := c1[q].children[0];
    assert IsIndexed(c1, m2, x);
    var u := (m0 - DroppedKeys(c0, q)) + m2;
    assert u[c1[x].fileData.path] == x;
    assert par1[x] == q;
    assert !Attached(c1, par1, x);
  }

  /** add on a path that is not indexed leaves the new object indexed but held by no object. */
  lemma AddWithoutParentDetaches(c0: seq<Cell>, par0: seq<nat>, m0: map<string, nat>, c1: seq<Cell>, par1: seq<nat>, r: nat)
    requires ValidStore(c0, par0, m0)
    requires r == |c0| < |c1| && c1[..r] == c0 && Forward(c1) && ParentsRecorded(c1, par1)
    requires DistinctPaths(Tree(c1, r)) && PathSet(Tree(c1, r)) !! m0.Keys
    ensures !Exact(c1, par1, m0 + Collect(c1, r))
  {
    IndexFreshNode(c0, par0, m0, c1, par1, r);
    assert (m0 + Collect(c1, r))[c1[r].fileData.path] == r;
    assert !Attached(c1, par1, r);
  }

  /** add on a parent that is not expandable indexes the new object although the root does not reach it. */
  lemma AttachBelowFileDetaches(c1: seq<Cell>, par1: seq<nat>, m: map<string, nat>, q: nat, r: nat, c2: seq<Cell>)
    requires ValidStore(c1, par1, m) && IsIndexed(c1, m, r) && q < r && !c1[q].fileData.expandable
    requires forall b, i :: 0 <= b < |c1| && 0 <= i < |c1[b].children| ==> c1[b].children[i] != r
    requires c2 == c1[q := c1[q].(children := c1[q].children + [r])]
    ensures !Exact(c2, par1[r := q], m)
  {
    assert m[c2[r].fileData.path] == r;
    assert !Attached(c2, par1[r := q], r);
  }

  // ---------------------------------------------------------------------------
  // The indexed tree
  // ---------------------------------------------------------------------------

  /** IndexedFileDataTree: the root node and `pathToNodeIndex`, kept in step by add, set and clear. */
  class IndexedFileDataTree {
    /** The node objects; `root` is the object at address 0. */
    var cells: seq<Cell>
    /** pathToNodeIndex: from a path to the node object indexed under it. */
    var index: map<string, nat>
    /** For every object that is a child, the object holding it. */
    ghost var parent: seq<nat>

    /**
     * The store has no cycles and unique parents, every index entry is an
     * object under its own path, the root is indexed, and every indexed
     * expandable object has its children indexed.
     */
    ghost predicate Valid()
      reads this
    {
      ValidStore(cells, parent, index)
    }

    /** Places node value `n` in the store as fresh objects, with `up` as its parent; returns n's address. */
    method Allocate(n: Node, up: nat) returns (r: nat)
      requires Forward(cells) && ParentsRecorded(cells, parent)
      modifies this`cells, this`parent
      ensures r == old(|cells|) < |cells|
      ensures Forward(cells) && ParentsRecorded(cells, parent)
      ensures cells[..r] == old(cells) && parent[..r] == old(parent) && parent[r] == up
      ensures Tree(cells, r) == n
      decreases n, 1
    {
      r := |cells|;
      cells := cells + [Cell(n.fileData, [])];
      parent := parent + [up];
      var refs := AllocateAll(n.children, r);
      ghost var c1 := cells;
      cells := cells[r := Cell(n.fileData, refs)];
      forall j | 0 <= j < |refs|
        ensures Tree(cells, refs[j]) == n.children[j]
      {
        TreeFrame(c1, cells, refs[j]);
      }
      assert Tree(cells, r).children == n.children;
    }

    /** Places each node value of `ns` in the store with `up` as its parent; returns their addresses. */
    method AllocateAll(ns: seq<Node>, up: nat) returns (refs: seq<nat>)
      requires Forward(cells) && ParentsRecorded(cells, parent) && up < |cells|
      modifies this`cells, this`parent
      ensures |refs| == |ns| && old(|cells|) <= |cells|
      ensures Forward(cells) && ParentsRecorded(cells, parent)
      ensures cells[..old(|cells|)] == old(cells) && parent[..old(|cells|)] == old(parent)
      ensures forall j :: 0 <= j < |refs| ==>
                old(|cells|) <= refs[j] < |cells| && parent[refs[j]] == up && Tree(cells, refs[j]) == ns[j]
      decreases ns, 0
    {
      refs := [];
      var j := 0;
      while j < |ns|
        invariant j <= |ns| && |refs| == j && old(|cells|) <= |cells|
        invariant Forward(cells) && ParentsRecorded(cells, parent)
        invariant cells[..old(|cells|)] == old(cells) && parent[..old(|cells|)] == old(parent)
        invariant forall i :: 0 <= i < j ==>
                    old(|cells|) <= refs[i] < |cells| && parent[refs[i]] == up && Tree(cells, refs[i]) == ns[i]
      {
        ghost var c1 := cells;
        ghost var p1 := parent;
        var r := Allocate(ns[j], up);
        forall i | 0 <= i < j
          ensures parent[refs[i]] == up && Tree(cells, refs[i]) == ns[i]
        {
          assert parent[..r][refs[i]] == p1[refs[i]];
          TreeFrame(c1, cells, refs[i]);
        }
        assert cells[..old(|cells|)] == c1[..old(|cells|)];
        assert parent[..old(|cells|)] == p1[..old(|cells|)];
        refs := refs + [r];
        j := j + 1;
      }
    }

    /** index(node): enters the object at `a` under its path, then, if it is expandable, indexes each child in turn. */
    method IndexNode(a: nat)
      requires Forward(cells) && a < |cells|
      modifies this`index
      ensures index == old(index) + Collect(cells, a)
      decreases |cells| - a
    {
      var fd := cells[a].fileData;
      index := index[fd.path := a];
      if fd.expandable {
        var children := cells[a].children;
        ghost var start := index;
        for k := 0 to |children|
          invariant index == start + CollectChildren(cells, a, k)
        {
          IndexNode(children[k]);
          CollectChildrenStep(cells, a, k, start);
        }
        CollectUnfold(cells, a, old(index));
      } else {
        CollectUnfold(cells, a, old(index));
      }
    }

    /** removeFromIndex(node): deletes the keys of the object at `a` and, if it is expandable, of its children's subtrees. */
    method RemoveFromIndex(a: nat)
      requires Forward(cells) && a < |cells|
      modifies this`index
      ensures index == old(index) - Collect(cells, a).Keys
      decreases |cells| - a
    {
      var fd := cells[a].fileData;
      index := index - {fd.path};
      if fd.expandable {
        var children := cells[a].children;
        for k := 0 to |children|
          invariant index == old(index) - ({fd.path} + CollectChildren(cells, a, k).Keys)
        {
          RemoveFromIndex(children[k]);
          RemoveChildStep(cells, a, k, old(index));
        }
      }
      RemoveUnfold(cells, a, old(index));
    }

    /** Builds the tree over `root` and indexes it: index(this.root). */
    constructor (root: Node)
      requires DistinctPaths(root)
      ensures Valid()
      ensures Tree(cells, 0) == root
      ensures index == Collect(cells, 0)
      ensures Exact(cells, parent, index)
    {
      cells := [];
      index := map[];
      parent := [];
      new;
      var r := Allocate(root, 0);
      IndexNode(r);
      assert map[] + Collect(cells, 0) == Collect(cells, 0);
      RootIndex(cells, parent);
    }

    /** get(path): the node indexed under `path`, or none (the source logs an error and returns null). */
    method Get(path: string) returns (node: Option<nat>)
      requires Valid()
      ensures node.Some? <==> path in index
      ensures node.Some? ==> node.value == index[path] && node.value < |cells| && cells[node.value].fileData.path == path
    {
      if path in index {
        node := Some(index[path]);
      } else {
        node := None;
      }
    }

    /**
     * The part `set` and `clear` share: when the object at `q` is expandable,
     * removeFromIndex each of its children.
     */
    method RemoveChildrenFromIndex(q: nat)
      requires Forward(cells) && q < |cells|
      modifies this`index
      ensures index == old(index) - DroppedKeys(cells, q)
    {
      if cells[q].fileData.expandable {
        var children := cells[q].children;
        for k := 0 to |children|
          invariant index == old(index) - CollectChildren(cells, q, k).Keys
        {
          RemoveFromIndex(children[k]);
        }
      } else {
        assert index == old(index) - {};
      }
    }

    /** `node.children = nodes` in set: the object at `q` gets fresh objects for `nodes` as its children. */
    method PlaceChildren(q: nat, nodes: seq<Node>)
      requires Forward(cells) && ParentsRecorded(cells, parent) && q < |cells|
      modifies this`cells, this`parent
      ensures Forward(cells) && ParentsRecorded(cells, parent) && old(|cells|) <= |cells|
      ensures cells[q].fileData == old(cells[q].fileData) && Tree(cells, q).children == nodes
      ensures forall a :: 0 <= a < old(|cells|) && a != q ==> cells[a] == old(cells[a])
      ensures forall a :: 0 <= a < old(|cells|) ==> parent[a] == old(parent[a])
    {
      var refs := AllocateAll(nodes, q);
      ghost var c1 := cells;
      cells := cells[q := Cell(cells[q].fileData, refs)];
      forall j | 0 <= j < |refs|
        ensures Tree(cells, refs[j]) == nodes[j]
      {
        TreeFrame(c1, cells, refs[j]);
      }
      assert Tree(cells, q).children == nodes;
      forall a | 0 <= a < old(|cells|) && a != q
        ensures cells[a] == old(cells[a])
      {
        assert c1[..old(|cells|)][a] == c1[a];
      }
      forall a | 0 <= a < old(|cells|)
        ensures parent[a] == old(parent[a])
      {
        assert parent[..old(|cells|)][a] == parent[a];
      }
    }

    /** `nodes.forEach(index)` in set: indexes each child of the object at `q` in turn. */
    method IndexChildren(q: nat)
      requires Forward(cells) && q < |cells|
      modifies this`index
      ensures index == old(index) + CollectChildren(cells, q, |cells[q].children|)
    {
      var children := cells[q].children;
      for k := 0 to |children|
        invariant index == old(index) + CollectChildren(cells, q, k)
      {
        IndexNode(children[k]);
        UnionAssoc(old(index), CollectChildren(cells, q, k), Collect(cells, children[k]));
      }
    }

    /**
     * add(parentPath, node): indexes `node` first, then appends it to the
     * children of the node indexed under `parentPath`. When no node is
     * indexed there the source fails after indexing; `ok` is false and the
     * new entries stay in the index.
     */
    method Add(parentPath: string, node: Node) returns (ok: bool)
      requires Valid()
      requires DistinctPaths(node) && PathSet(node) !! index.Keys && parentPath !in PathSet(node)
      modifies this
      ensures Valid()
      ensures ok == (parentPath in old(index))
      ensures old(|cells|) < |cells| && Tree(cells, old(|cells|)) == node
      ensures index == old(index) + Collect(cells, old(|cells|))
      ensures index.Keys == old(index.Keys) + PathSet(node)
      ensures ok ==> parentPath in index && index[parentPath] == old(index[parentPath])
      ensures ok ==> cells[old(index[parentPath])] ==
                     old(cells[index[parentPath]]).(children := old(cells[index[parentPath]].children) + [old(|cells|)])
      ensures forall a :: 0 <= a < old(|cells|) && !(ok && a == old(index[parentPath])) ==> cells[a] == old(cells[a])
      ensures !ok ==> !Exact(cells, parent, index)
      ensures ok && old(Exact(cells, parent, index)) && old(cells[index[parentPath]].fileData.expandable) ==>
                Exact(cells, parent, index)
      ensures ok && !old(cells[index[parentPath]].fileData.expandable) ==> !Exact(cells, parent, index)
    {
      ghost var c0 := cells;
      ghost var par0 := parent;
      ghost var m0 := index;
      var r := Allocate(node, 0);
      IndexNode(r);
      IndexFreshNode(c0, par0, m0, cells, parent, r);
      forall a | 0 <= a < r
        ensures cells[a] == c0[a]
      {
        assert cells[..r][a] == cells[a];
      }
      assert parentPath in index <==> parentPath in m0;
      if parentPath !in index {
        AddWithoutParentDetaches(c0, par0, m0, cells, parent, r);
        return false;
      }
      var q := index[parentPath];
      assert q == m0[parentPath] < r;
      ghost var c1 := cells;
      cells := cells[q := cells[q].(children := cells[q].children + [r])];
      AttachChild(c1, parent, index, q, r, cells);
      ghost var par1 := parent;
      parent := parent[r := q];
      if c0[q].fileData.expandable {
        if Exact(c0, par0, m0) {
          assert parent[..r] == par1[..r];
          AttachKeepsExact(c0, par0, m0, c1, q, r, cells, parent);
        }
      } else {
        AttachBelowFileDetaches(c1, par1, index, q, r, cells);
      }
      ok := true;
    }

    /**
     * set(parentPath, nodes): when the node indexed under `parentPath` is
     * expandable, removes its children's subtrees from the index; then makes
     * `nodes` its children and indexes each of them. When no node is indexed
     * there the source fails before changing anything; `ok` is false.
     */
    method Set(parentPath: string, nodes: seq<Node>) returns (ok: bool)
      requires Valid()
      requires DistinctList(nodes)
      requires parentPath in index ==> PathSetList(nodes) !! (index.Keys - DroppedKeys(cells, index[parentPath]))
      modifies this
      ensures Valid()
      ensures ok == (parentPath in old(index))
      ensures !ok ==> cells == old(cells) && index == old(index)
      ensures ok ==> parentPath in index && index[parentPath] == old(index[parentPath])
      ensures ok ==> Tree(cells, index[parentPath]) == Node(old(cells[index[parentPath]].fileData), nodes)
      ensures ok ==> index == (old(index) - old(DroppedKeys(cells, index[parentPath]))) +
                              CollectChildren(cells, index[parentPath], |nodes|)
      ensures ok ==> index.Keys == (old(index.Keys) - old(DroppedKeys(cells, index[parentPath]))) + PathSetList(nodes)
      ensures old(|cells|) <= |cells|
      ensures forall a :: 0 <= a < old(|cells|) && !(ok && a == old(index[parentPath])) ==> cells[a] == old(cells[a])
      ensures old(Exact(cells, parent, index)) && (!ok || old(cells[index[parentPath]].fileData.expandable) || nodes == []) ==>
                Exact(cells, parent, index)
      ensures ok && !old(cells[index[parentPath]].fileData.expandable) && nodes != [] ==> !Exact(cells, parent, index)
    {
      var found := Get(parentPath);  // the source's bare `get(...)`, meaning this.get
      if found.None? {
        return false;
      }
      var q := found.value;
      ghost var c0 := cells;
      ghost var par0 := parent;
      ghost var m0 := index;
      RemoveChildrenFromIndex(q);
      PlaceChildren(q, nodes);
      IndexChildren(q);
      ReplaceChildren(c0, par0, m0, q, cells, parent);
      CollectChildrenKeys(cells, q, |nodes|);
      assert Tree(cells, q).children[..|nodes|] == nodes;
      if c0[q].fileData.expandable || nodes == [] {
        if Exact(c0, par0, m0) {
          ReplaceKeepsExact(c0, par0, m0, q, cells, parent);
        }
      } else {
        SetBelowFileDetaches(c0, par0, m0, q, cells, parent);
      }
      ok := true;
    }

    /**
     * clear(parentPath): when the node indexed under `parentPath` is
     * expandable, removes its children's subtrees from the index; then
     * leaves it with no children. When no node is indexed there the source
     * fails before changing anything; `ok` is false.
     */
    method Clear(parentPath: string) returns (ok: bool)
      requires Valid()
      modifies this
      ensures Valid()
      ensures ok == (parentPath in old(index))
      ensures !ok ==> index == old(index)
      ensures ok ==> parentPath in index && index[parentPath] == old(index[parentPath])
      ensures ok ==> cells[index[parentPath]] == Cell(old(cells[index[parentPath]].fileData), [])
      ensures ok ==> index == old(index) - old(DroppedKeys(cells, index[parentPath]))
      ensures |cells| == old(|cells|)
      ensures forall a :: 0 <= a < old(|cells|) && !(ok && a == old(index[parentPath])) ==> cells[a] == old(cells[a])
      ensures old(Exact(cells, parent, index)) ==> Exact(cells, parent, index)
    {
      var found := Get(parentPath);  // the source's bare `get(...)`, meaning this.get
      if found.None? {
        return false;
      }
      var q := found.value;
      ghost var c0 := cells;
      ghost var m0 := index;
      RemoveChildrenFromIndex(q);
      cells := cells[q := Cell(cells[q].fileData, [])];
      assert Tree(cells, q).children == [];
      ReplaceChildren(c0, parent, m0, q, cells, parent);
      assert index == (m0 - DroppedKeys(c0, q)) + CollectChildren(cells, q, 0);
      if Exact(c0, parent, m0) {
        ReplaceKeepsExact(c0, parent, m0, q, cells, parent);
      }
      ok := true;
    }
  }
}
