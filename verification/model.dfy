/** The known state of the database as the viewer accumulates it (src/model.rs):
    a map from paths to subtrees, each subtree a partial Merk tree whose nodes
    arrive one at a time and in any order. A subtree keeps its nodes, the keys a
    present node names as a child that have not arrived yet (the waitlist), and
    the present nodes whose parent has not arrived yet (the cluster roots). */
module Model {
  import opened Common
  import Interner
  import PathDisplay

  type Path = PathDisplay.Path
  type Arena = PathDisplay.Arena

  datatype FeatureType = BasicMerkNode | SummedMerkNode(sum: int)

  /** A value a subtree's node holds. */
  datatype Element =
    | Item(value: Bytes, flags: Option<Bytes>)
    | SumItem(sum: int, flags: Option<Bytes>)
    | Reference(path: Path, key: Key, flags: Option<Bytes>)
    | Sumtree(rootKey: Option<Key>, sum: int, flags: Option<Bytes>)
    | Subtree(rootKey: Option<Key>, flags: Option<Bytes>)
    | SubtreePlaceholder

  /** A Merk node: its element, the keys of its children and its hashes. */
  datatype Node = Node(
    element: Element,
    left: Option<Key>,
    right: Option<Key>,
    featureType: Option<FeatureType>,
    valueHash: Option<Bytes>,
    kvDigestHash: Option<Bytes>)

  /** `Node::new_subtree_placeholder`: a node standing for a subtree known only
      from a path. */
  function Placeholder(): (n: Node)
    ensures n.element.SubtreePlaceholder? && ChildKeys(n) == {}
  {
    Node(SubtreePlaceholder, None, None, None, None, None)
  }

  function ChildKeys(n: Node): set<Key>
  {
    (if n.left.Some? then {n.left.value} else {}) + (if n.right.Some? then {n.right.value} else {})
  }

  datatype SubtreeState = SubtreeState(
    rootNode: Option<Key>,
    clusterRoots: set<Key>,
    nodes: map<Key, Node>,
    waitlist: set<Key>)

  /** `Subtree::new`. */
  function Empty(): (s: SubtreeState)
    ensures Inv(s) && InSync(s) && |s.nodes| == 0
  {
    SubtreeState(None, {}, map[], {})
  }

  /** `Subtree::new_root`. */
  function NewRoot(key: Key): (s: SubtreeState)
    ensures Inv(s) && InSync(s) && s.rootNode == Some(key) && |s.nodes| == 0
  {
    SubtreeState(Some(key), {}, map[], {})
  }

  /** No key is both a cluster root and waited for, and no present node is
      waited for. */
  ghost predicate Inv(s: SubtreeState)
  {
    s.clusterRoots !! s.waitlist && s.waitlist !! s.nodes.Keys
  }

  /** Every cluster root is a present node, as iterating the cluster roots
      expects. */
  ghost predicate InSync(s: SubtreeState)
  {
    s.clusterRoots <= s.nodes.Keys
  }

  predicate IsRootKey(s: SubtreeState, key: Key)
  {
    s.rootNode == Some(key)
  }

  /** `Subtree::remove` as written: a present node leaves, its children stop
      being waited for and those still present become cluster roots; the key
      itself is waited for unless it is the root or a cluster root. A cluster
      root that is removed stays a cluster root. */
  function RemoveAsWritten(s: SubtreeState, key: Key): (r: SubtreeState)
    ensures key !in s.nodes ==> r == s
    ensures key !in r.nodes && r.rootNode == s.rootNode
    ensures forall k :: k in s.nodes && k != key ==> k in r.nodes && r.nodes[k] == s.nodes[k]
    ensures r.nodes.Keys <= s.nodes.Keys
    ensures key in s.nodes ==>
      forall k :: k in ChildKeys(s.nodes[key]) && k in r.nodes ==> k in r.clusterRoots
    ensures key in s.nodes ==>
      forall k :: k in ChildKeys(s.nodes[key]) && k != key ==> k !in r.waitlist
    ensures key in s.nodes ==> (key in r.clusterRoots <==> key in s.clusterRoots)
    ensures key in s.nodes && Inv(s) ==>
      (key in r.waitlist <==> !IsRootKey(s, key) && key !in s.clusterRoots)
    ensures forall k :: k != key && !(key in s.nodes && k in ChildKeys(s.nodes[key])) ==>
      (k in r.waitlist <==> k in s.waitlist) && (k in r.clusterRoots <==> k in s.clusterRoots)
    ensures Inv(s) ==> Inv(r)
  {
    if key !in s.nodes then s
    else
      var node := s.nodes[key];
      var nodes := s.nodes - {key};
      var waitlist := s.waitlist - ChildKeys(node);
      var clusterRoots := s.clusterRoots + (set k | k in ChildKeys(node) && k in nodes);
      var waited := !IsRootKey(s, key) && key !in clusterRoots;
      SubtreeState(s.rootNode, clusterRoots, nodes,
        if waited then waitlist + {key} else waitlist)
  }

  /** The corrected remove differs from the one as written only in taking a
      removed node's key out of the cluster roots. */
  lemma RemoveDiffersOnlyInKey(s: SubtreeState, key: Key)
    requires key in s.nodes
    ensures var w := RemoveAsWritten(s, key);
      Remove(s, key) == w.(clusterRoots := w.clusterRoots - {key})
  {
    var w := RemoveAsWritten(s, key);
    var node := s.nodes[key];
    var children := set k | k in ChildKeys(node) && k in s.nodes - {key};
    assert Remove(s, key).clusterRoots == w.clusterRoots - {key} by {
      assert key !in children;
    }
  }

  /** `Subtree::remove`, with a removed cluster root also leaving the cluster
      roots (and, having had no known parent, not being waited for). */
  function Remove(s: SubtreeState, key: Key): (r: SubtreeState)
    ensures key !in s.nodes ==> r == s
    ensures key !in r.nodes && r.rootNode == s.rootNode
    ensures forall k :: k in s.nodes && k != key ==> k in r.nodes && r.nodes[k] == s.nodes[k]
    ensures r.nodes.Keys <= s.nodes.Keys
    ensures key in s.nodes ==>
      forall k :: k in ChildKeys(s.nodes[key]) && k in r.nodes ==> k in r.clusterRoots
    ensures key in s.nodes ==>
      forall k :: k in ChildKeys(s.nodes[key]) && k != key ==> k !in r.waitlist
    ensures key in s.nodes && Inv(s) ==>
      (key in r.waitlist <==> !IsRootKey(s, key) && key !in s.clusterRoots)
    ensures Inv(s) ==> Inv(r)
    ensures InSync(s) ==> InSync(r)
  {
    if key !in s.nodes then s
    else
      var node := s.nodes[key];
      var nodes := s.nodes - {key};
      var waitlist := s.waitlist - ChildKeys(node);
      var clusterRoots := (s.clusterRoots - {key}) + (set k | k in ChildKeys(node) && k in nodes);
      var waited := !IsRootKey(s, key) && key !in s.clusterRoots;
      SubtreeState(s.rootNode, clusterRoots, nodes,
        if waited then waitlist + {key} else waitlist)
  }

  /** `Subtree::insert`: any node under the key is first removed as written, then
      the node takes its place. The key stops being waited for; if nobody waited
      for it and it is not the root it starts a cluster. Its children are waited
      for unless present, and none of them is a cluster root any more. */
  function Insert(s: SubtreeState, key: Key, node: Node): (r: SubtreeState)
    ensures r.nodes == s.nodes[key := node]
    ensures r.rootNode == s.rootNode
    ensures forall k :: k in ChildKeys(node) ==> k !in r.clusterRoots
    ensures forall k :: k in ChildKeys(node) && k !in r.nodes ==> k in r.waitlist
    ensures key !in ChildKeys(node) ==> key !in r.waitlist
    ensures forall k :: k != key && k !in ChildKeys(node) && !(key in s.nodes && k in ChildKeys(s.nodes[key])) ==>
      (k in r.waitlist <==> k in s.waitlist) && (k in r.clusterRoots <==> k in s.clusterRoots)
    ensures Inv(s) && key !in ChildKeys(node) ==> Inv(r)
    ensures InSync(s) ==> InSync(r)
  {
    var s1 := RemoveAsWritten(s, key);
    assert Inv(s) ==> Inv(s1);
    var waited := key in s1.waitlist;
    var clusterRoots :=
      if !waited && !IsRootKey(s1, key) then s1.clusterRoots + {key} else s1.clusterRoots;
    var waitlist := (s1.waitlist - {key}) + (set k | k in ChildKeys(node) && k !in s1.nodes);
    SubtreeState(s1.rootNode, clusterRoots - ChildKeys(node), s1.nodes[key := node], waitlist)
  }

  /** A fresh key is taken off the waitlist if it was waited for; otherwise it
      starts a cluster unless it is the subtree's root. A cluster root stays
      one. */
  lemma InsertFresh(s: SubtreeState, key: Key, node: Node)
    requires key !in s.nodes && key !in ChildKeys(node)
    ensures var r := Insert(s, key, node);
      && key !in r.waitlist
      && (key in r.clusterRoots <==> (key !in s.waitlist && !IsRootKey(s, key)) || key in s.clusterRoots)
  {
  }

  /** `Subtree::insert_not_exists`. */
  function InsertNotExists(s: SubtreeState, key: Key, node: Node): (r: SubtreeState)
    ensures key in r.nodes
    ensures key in s.nodes ==> r == s
    ensures key !in s.nodes ==> r.nodes == s.nodes[key := node]
    ensures Inv(s) && key !in ChildKeys(node) ==> Inv(r)
    ensures InSync(s) ==> InSync(r)
  {
    if key in s.nodes then s else Insert(s, key, node)
  }

  /** `Subtree::set_root`. */
  function SetRoot(s: SubtreeState, key: Key): (r: SubtreeState)
    ensures r.rootNode == Some(key) && key !in r.clusterRoots
    ensures r.nodes == s.nodes && r.waitlist == s.waitlist
    ensures r.clusterRoots == s.clusterRoots - {key}
    ensures Inv(s) ==> Inv(r)
    ensures InSync(s) ==> InSync(r)
  {
    SubtreeState(Some(key), s.clusterRoots - {key}, s.nodes, s.waitlist)
  }

  predicate IsSubtreeElement(e: Element)
  {
    e.Sumtree? || e.Subtree? || e.SubtreePlaceholder?
  }

  /** `Subtree::iter_subtree_keys`: the keys of nodes standing for child
      subtrees. */
  function SubtreeKeys(s: SubtreeState): (r: set<Key>)
    ensures r <= s.nodes.Keys
    ensures forall k :: k in s.nodes ==> (k in r <==> IsSubtreeElement(s.nodes[k].element))
  {
    set k | k in s.nodes && IsSubtreeElement(s.nodes[k].element)
  }

  /** Inserting the same node twice is the same as inserting it once, as long as
      the node does not name itself as a child. */
  lemma InsertIdempotent(s: SubtreeState, key: Key, node: Node)
    requires Inv(s) && key !in ChildKeys(node)
    ensures Insert(Insert(s, key, node), key, node) == Insert(s, key, node)
  {
    var s1 := Insert(s, key, node);
    var r := Insert(s1, key, node);
    var a := RemoveAsWritten(s, key);
    assert key !in a.nodes;
    assert r.waitlist == s1.waitlist;
    assert r.clusterRoots == s1.clusterRoots;
    assert r.nodes == s1.nodes;
  }

  /** Removing a node and fetching it back restores the subtree, when the
      subtree is consistent around that node: its missing children are waited
      for and none of its children is a cluster root. */
  lemma RemoveInsertRoundTrip(s: SubtreeState, key: Key)
    requires Inv(s) && key in s.nodes
    requires key !in ChildKeys(s.nodes[key])
    requires forall k :: k in ChildKeys(s.nodes[key]) && k !in s.nodes ==> k in s.waitlist
    requires ChildKeys(s.nodes[key]) !! s.clusterRoots
    ensures Insert(RemoveAsWritten(s, key), key, s.nodes[key]) == s
  {
    var node := s.nodes[key];
    var r := Insert(RemoveAsWritten(s, key), key, node);
    assert r.nodes == s.nodes;
    assert r.waitlist == s.waitlist;
    assert r.clusterRoots == s.clusterRoots;
  }

  /** Removing a cluster root as written leaves a cluster root that is not a
      present node, so iterating the cluster roots fails. */
  lemma RemoveAsWrittenLosesSync()
    ensures var s := SubtreeState(None, {[1]}, map[[1] := Placeholder()], {});
      && Inv(s) && InSync(s)
      && !InSync(RemoveAsWritten(s, [1]))
      && InSync(Remove(s, [1]))
  {
    var s := SubtreeState(None, {[1]}, map[[1] := Placeholder()], {});
    assert [1] in RemoveAsWritten(s, [1]).clusterRoots;
  }

  // ---------------------------------------------------------------------------
  // The tree of subtrees

  datatype Tree = Tree(subtrees: map<Path, SubtreeState>)

  /** `Tree::new`. */
  function NewTree(): (t: Tree)
    ensures |t.subtrees| == 0
  {
    Tree(map[])
  }

  /** The arena is valid, every subtree's path is in it, and every subtree
      keeps its invariant. */
  ghost predicate TreeValid(c: Arena, t: Tree)
  {
    && Interner.Valid(c)
    && (forall p :: p in t.subtrees ==> Interner.Has(c, p))
    && (forall p :: p in t.subtrees ==> Inv(t.subtrees[p]))
  }

  ghost predicate TreeInSync(t: Tree)
  {
    forall p :: p in t.subtrees ==> InSync(t.subtrees[p])
  }

  /** `entry(path).or_default()`. */
  function GetOrDefault(t: Tree, p: Path): SubtreeState
  {
    if p in t.subtrees then t.subtrees[p] else Empty()
  }

  /** `Tree::get_node`. */
  function GetNode(t: Tree, p: Path, key: Key): (r: Option<Node>)
    ensures r.Some? <==> p in t.subtrees && key in t.subtrees[p].nodes
    ensures r.Some? ==> r.value == t.subtrees[p].nodes[key]
  {
    if p in t.subtrees && key in t.subtrees[p].nodes then Some(t.subtrees[p].nodes[key]) else None
  }

  /** `Tree::set_root`: the root subtree exists and has this root node. */
  function SetTreeRoot(t: Tree, key: Key): (r: Tree)
    ensures None in r.subtrees && r.subtrees[None] == SetRoot(GetOrDefault(t, None), key)
    ensures forall p :: p != None ==> (p in r.subtrees <==> p in t.subtrees)
    ensures forall p :: p != None && p in t.subtrees ==> p in r.subtrees && r.subtrees[p] == t.subtrees[p]
  {
    Tree(t.subtrees[None := SetRoot(GetOrDefault(t, None), key)])
  }

  /** No entry of `t` is dropped from `r`, and the entries of `r` that are new
      or differ from `t` are at paths in `changed`. */
  ghost predicate ChangedOnlyAt(t: Tree, r: Tree, changed: set<Path>)
  {
    && (forall a :: a in t.subtrees ==> a in r.subtrees)
    && (forall a :: a in r.subtrees && (a !in t.subtrees || r.subtrees[a] != t.subtrees[a]) ==> a in changed)
  }

  /** No node of `t` is lost or changed in `r`, and every node `r` adds is a
      placeholder. */
  ghost predicate OnlyPlaceholdersAdded(t: Tree, r: Tree)
  {
    && (forall a :: a in t.subtrees ==> a in r.subtrees)
    && (forall a, k :: a in t.subtrees && k in t.subtrees[a].nodes ==>
          k in r.subtrees[a].nodes && r.subtrees[a].nodes[k] == t.subtrees[a].nodes[k])
    && (forall a, k ::
          (a in r.subtrees && k in r.subtrees[a].nodes && !(a in t.subtrees && k in t.subtrees[a].nodes))
          ==> r.subtrees[a].nodes[k] == Placeholder())
  }

  /** Every proper ancestor of `p` has a subtree holding a node under the key of
      the next segment of `p`. */
  ghost predicate AncestorsPopulated(c: Arena, r: Tree, p: Path)
    requires Interner.Valid(c) && Interner.Has(c, p)
  {
    forall k :: 1 <= k <= Interner.Level(c, p) ==>
      && Interner.Up(c, p, k) in r.subtrees
      && Interner.ToVec(c, p)[Interner.Level(c, p) - k] in r.subtrees[Interner.Up(c, p, k)].nodes
  }

  /** The loop of `populate_subtrees_chain`, walking up from `p`. */
  function Chain(c: Arena, t: Tree, p: Path): (r: Tree)
    requires TreeValid(c, t) && Interner.Has(c, p)
    ensures TreeValid(c, r)
    ensures ChangedOnlyAt(t, r, Interner.Ancestors(c, p))
    ensures OnlyPlaceholdersAdded(t, r)
    ensures AncestorsPopulated(c, r, p)
    decreases Interner.Level(c, p)
  {
    match Interner.ParentWithKey(c, p)
    case None => t
    case Some((parent, key)) =>
      var sub := InsertNotExists(GetOrDefault(t, parent), key, Placeholder());
      var t1 := Tree(t.subtrees[parent := sub]);
      var r := Chain(c, t1, parent);
      assert Interner.ParentOk(c, p.value);
      ChainStep(c, t, p, parent, key, t1, r);
      r
  }

  lemma ChainStep(c: Arena, t: Tree, p: Path, parent: Path, key: Key, t1: Tree, r: Tree)
    requires TreeValid(c, t) && Interner.Has(c, p) && p.Some?
    requires parent == c.slab[p.value].parent && key == c.slab[p.value].bytes
    requires Interner.ParentOk(c, p.value)
    requires t1 == Tree(t.subtrees[parent := InsertNotExists(GetOrDefault(t, parent), key, Placeholder())])
    requires TreeValid(c, r)
    requires ChangedOnlyAt(t1, r, Interner.Ancestors(c, parent))
    requires OnlyPlaceholdersAdded(t1, r)
    requires AncestorsPopulated(c, r, parent)
    ensures ChangedOnlyAt(t, r, Interner.Ancestors(c, p))
    ensures OnlyPlaceholdersAdded(t, r)
    ensures AncestorsPopulated(c, r, p)
  {
    assert Interner.Ancestors(c, p) == {parent} + Interner.Ancestors(c, parent);
    ChainChangedOnly(t, parent, Interner.Ancestors(c, parent), t1, r);
    ChainOnlyPlaceholders(t, parent, key, t1, r);
    ChainAncestors(c, p, parent, key, t1, r);
  }

  lemma ChainChangedOnly(t: Tree, parent: Path, above: set<Path>, t1: Tree, r: Tree)
    requires forall a :: a in t1.subtrees && a != parent ==> a in t.subtrees && t1.subtrees[a] == t.subtrees[a]
    requires forall a :: a in t.subtrees ==> a in t1.subtrees
    requires ChangedOnlyAt(t1, r, above)
    ensures ChangedOnlyAt(t, r, {parent} + above)
  {
  }

  lemma ChainOnlyPlaceholders(t: Tree, parent: Path, key: Key, t1: Tree, r: Tree)
    requires t1 == Tree(t.subtrees[parent := InsertNotExists(GetOrDefault(t, parent), key, Placeholder())])
    requires OnlyPlaceholdersAdded(t1, r)
    ensures OnlyPlaceholdersAdded(t, r)
  {
  }

  lemma ChainAncestors(c: Arena, p: Path, parent: Path, key: Key, t1: Tree, r: Tree)
    requires Interner.Valid(c) && Interner.Has(c, p) && p.Some?
    requires parent == c.slab[p.value].parent && key == c.slab[p.value].bytes
    requires Interner.ParentOk(c, p.value)
    requires parent in t1.subtrees && key in t1.subtrees[parent].nodes
    requires OnlyPlaceholdersAdded(t1, r)
    requires AncestorsPopulated(c, r, parent)
    ensures AncestorsPopulated(c, r, p)
  {
    var level := Interner.Level(c, p);
    assert Interner.ToVec(c, p) == Interner.ToVec(c, parent) + [key];
    forall k | 1 <= k <= level
      ensures Interner.Up(c, p, k) in r.subtrees
      ensures Interner.ToVec(c, p)[level - k] in r.subtrees[Interner.Up(c, p, k)].nodes
    {
      assert Interner.Up(c, p, k) == Interner.Up(c, parent, k - 1);
      if k > 1 {
        assert Interner.ToVec(c, p)[level - k] == Interner.ToVec(c, parent)[level - 1 - (k - 1)];
      }
    }
  }

  /** `Tree::populate_subtrees_chain`: the subtree at `p` exists (created empty
      if missing, otherwise untouched), and every proper ancestor exists and
      holds a node for the next segment, a placeholder only where none was. */
  function PopulateSubtreesChain(c: Arena, t: Tree, p: Path): (r: Tree)
    requires TreeValid(c, t) && Interner.Has(c, p)
    ensures TreeValid(c, r)
    ensures p in r.subtrees && r.subtrees[p] == GetOrDefault(t, p)
    ensures AncestorsPopulated(c, r, p)
    ensures OnlyPlaceholdersAdded(t, r)
    ensures ChangedOnlyAt(t, r, {p} + Interner.Ancestors(c, p))
  {
    var t1 := Tree(t.subtrees[p := GetOrDefault(t, p)]);
    assert TreeValid(c, t1) by {
      assert Inv(GetOrDefault(t, p));
    }
    var r := Chain(c, t1, p);
    PopulateChained(c, t, p, t1, r);
    r
  }

  lemma PopulateChained(c: Arena, t: Tree, p: Path, t1: Tree, r: Tree)
    requires Interner.Valid(c) && Interner.Has(c, p)
    requires t1 == Tree(t.subtrees[p := GetOrDefault(t, p)])
    requires ChangedOnlyAt(t1, r, Interner.Ancestors(c, p))
    requires OnlyPlaceholdersAdded(t1, r)
    ensures p in r.subtrees && r.subtrees[p] == GetOrDefault(t, p)
    ensures OnlyPlaceholdersAdded(t, r)
    ensures ChangedOnlyAt(t, r, {p} + Interner.Ancestors(c, p))
  {
    assert p !in Interner.Ancestors(c, p);
    assert r.subtrees[p] == t1.subtrees[p];
    ChainChangedOnly(t, p, Interner.Ancestors(c, p), t1, r);
    DefaultPlaceholders(t, p, t1, r);
  }

  /** Making sure the subtree at `p` exists adds no node. */
  lemma DefaultPlaceholders(t: Tree, p: Path, t1: Tree, r: Tree)
    requires t1 == Tree(t.subtrees[p := GetOrDefault(t, p)])
    requires OnlyPlaceholdersAdded(t1, r)
    ensures OnlyPlaceholdersAdded(t, r)
  {
    assert forall a :: a in t.subtrees ==> t1.subtrees[a] == t.subtrees[a];
  }

  /** The child subtree a node standing for a subtree makes exist, rooted at
      the node's root key when it has one. */
  function AddChildSubtree(c: Arena, t: Tree, p: Path, key: Key, rootKey: Option<Key>): (r: (Arena, Tree, Path))
    requires TreeValid(c, t) && Interner.Has(c, p)
    ensures TreeValid(r.0, r.1) && Interner.Extends(c, r.0)
    ensures Interner.Has(r.0, r.2) && Interner.ToVec(r.0, r.2) == Interner.ToVec(c, p) + [key]
    ensures r.2 in r.1.subtrees && (rootKey.Some? ==> r.1.subtrees[r.2].rootNode == rootKey)
    ensures r.2 != p && forall q :: q in t.subtrees && q != r.2 ==> q in r.1.subtrees && r.1.subtrees[q] == t.subtrees[q]
    ensures r.1.subtrees.Keys == t.subtrees.Keys + {r.2}
    ensures r.1.subtrees[r.2].nodes == GetOrDefault(t, r.2).nodes
  {
    var (c2, q) := PathDisplay.Child(c, p, key);
    var sub := GetOrDefault(t, q);
    var sub2 := if rootKey.Some? then SetRoot(sub, rootKey.value) else sub;
    assert |Interner.ToVec(c2, q)| != |Interner.ToVec(c, p)|;
    forall a | a in t.subtrees
      ensures Interner.Has(c2, a)
    {
    }
    (c2, Tree(t.subtrees[q := sub2]), q)
  }

  /** Every node of `t` other than the one under `key` at `p` is still in `r`,
      and every node `r` has beyond those is a placeholder. */
  ghost predicate NodesKeptBut(t: Tree, r: Tree, p: Path, key: Key)
  {
    && (forall a, k :: GetNode(t, a, k).Some? && (a, k) != (p, key) ==> GetNode(r, a, k) == GetNode(t, a, k))
    && (forall a, k :: GetNode(r, a, k).Some? && GetNode(t, a, k).None? && (a, k) != (p, key) ==>
          GetNode(r, a, k) == Some(Placeholder()))
  }

  /** `Tree::insert`: the path's chain of subtrees is populated, a node standing
      for a subtree makes that subtree exist (rooted at its root key, if any),
      and the node is inserted into the path's subtree. The arena may grow by
      the child path. No node is lost, the only nodes added besides this one are
      ancestor placeholders, and the only subtrees that change are the path's,
      its ancestors' and the child subtree's. */
  function InsertNode(c: Arena, t: Tree, p: Path, key: Key, node: Node): (r: (Arena, Tree))
    requires TreeValid(c, t) && Interner.Has(c, p)
    ensures Interner.Valid(r.0) && Interner.Extends(c, r.0) && Interner.Has(r.0, p)
    ensures key !in ChildKeys(node) ==> TreeValid(r.0, r.1)
    ensures GetNode(r.1, p, key) == Some(node)
    ensures AncestorsPopulated(c, r.1, p)
    ensures NodesKeptBut(t, r.1, p, key)
    ensures forall a :: a in t.subtrees ==> a in r.1.subtrees
    ensures forall a :: a in r.1.subtrees ==> Interner.Has(r.0, a)
    ensures forall a ::
      (a in r.1.subtrees && a != p && a !in Interner.Ancestors(c, p) &&
       Interner.ToVec(r.0, a) != Interner.ToVec(c, p) + [key]) ==>
        a in t.subtrees && r.1.subtrees[a] == t.subtrees[a]
    ensures !(node.element.Sumtree? || node.element.Subtree?) ==> r.0 == c
    ensures (node.element.Sumtree? || node.element.Subtree?) ==>
      exists q :: q in r.1.subtrees && Interner.Has(r.0, q)
        && Interner.ToVec(r.0, q) == Interner.ToVec(c, p) + [key]
        && (node.element.rootKey.Some? ==> r.1.subtrees[q].rootNode == node.element.rootKey)
  {
    var t1 := PopulateSubtreesChain(c, t, p);
    if node.element.Sumtree? || node.element.Subtree? then
      var (c2, t2, q) := AddChildSubtree(c, t1, p, key, node.element.rootKey);
      Interner.ToVecExtends(c, c2, p);
      var r := PutNode(c2, t2, p, key, node);
      InsertWithChild(c, t, p, key, node, t1, c2, t2, q, r.1);
      r
    else
      var r := PutNode(c, t1, p, key, node);
      InsertPlain(c, t, p, key, node, t1, r.1);
      r
  }

  lemma InsertPlain(c: Arena, t: Tree, p: Path, key: Key, node: Node, t1: Tree, r: Tree)
    requires TreeValid(c, t) && Interner.Has(c, p)
    requires AncestorsPopulated(c, t1, p) && OnlyPlaceholdersAdded(t, t1)
    requires ChangedOnlyAt(t, t1, {p} + Interner.Ancestors(c, p))
    requires p in t1.subtrees && r == Tree(t1.subtrees[p := Insert(t1.subtrees[p], key, node)])
    ensures AncestorsPopulated(c, r, p)
    ensures NodesKeptBut(t, r, p, key)
    ensures forall a :: a in r.subtrees && a != p && a !in Interner.Ancestors(c, p) ==>
      a in t.subtrees && r.subtrees[a] == t.subtrees[a]
  {
    PutKeepsAncestors(c, p, key, node, t1, r);
    PutKeepsNodes(t, p, key, node, t1, r);
  }

  lemma InsertWithChild(c: Arena, t: Tree, p: Path, key: Key, node: Node, t1: Tree, c2: Arena, t2: Tree, q: Path, r: Tree)
    requires TreeValid(c, t) && Interner.Has(c, p)
    requires AncestorsPopulated(c, t1, p) && OnlyPlaceholdersAdded(t, t1)
    requires ChangedOnlyAt(t, t1, {p} + Interner.Ancestors(c, p))
    requires Interner.Valid(c2) && Interner.Extends(c, c2)
    requires Interner.Has(c2, q) && Interner.ToVec(c2, q) == Interner.ToVec(c, p) + [key]
    requires q != p && forall a :: a in t1.subtrees && a != q ==> a in t2.subtrees && t2.subtrees[a] == t1.subtrees[a]
    requires t2.subtrees.Keys == t1.subtrees.Keys + {q}
    requires t2.subtrees[q].nodes == GetOrDefault(t1, q).nodes
    requires p in t2.subtrees && r == Tree(t2.subtrees[p := Insert(t2.subtrees[p], key, node)])
    ensures AncestorsPopulated(c, r, p)
    ensures NodesKeptBut(t, r, p, key)
    ensures forall a :: a in r.subtrees && a != p && a !in Interner.Ancestors(c, p) && a != q ==>
      a in t.subtrees && r.subtrees[a] == t.subtrees[a]
  {
    LinkedNodesAsIn(t1, t2, q);
    NodesAsInKeeps(c, p, t, t1, t2);
    PutKeepsAncestors(c, p, key, node, t2, r);
    PutKeepsNodes(t, p, key, node, t2, r);
    LinkedFrame(c, p, t, t1, t2, q, r);
  }

  /** Linking the child subtree at `q` changes no subtree's nodes. */
  lemma LinkedNodesAsIn(t1: Tree, t2: Tree, q: Path)
    requires forall a :: a in t1.subtrees && a != q ==> a in t2.subtrees && t2.subtrees[a] == t1.subtrees[a]
    requires t2.subtrees.Keys == t1.subtrees.Keys + {q}
    requires t2.subtrees[q].nodes == GetOrDefault(t1, q).nodes
    ensures NodesAsIn(t1, t2)
  {
  }

  /** Populating, linking at `q` and putting at `p` leave every other subtree
      off the ancestor chain as it was. */
  lemma LinkedFrame(c: Arena, p: Path, t: Tree, t1: Tree, t2: Tree, q: Path, r: Tree)
    requires Interner.Valid(c) && Interner.Has(c, p)
    requires ChangedOnlyAt(t, t1, {p} + Interner.Ancestors(c, p))
    requires forall a :: a in t1.subtrees && a != q ==> a in t2.subtrees && t2.subtrees[a] == t1.subtrees[a]
    requires t2.subtrees.Keys == t1.subtrees.Keys + {q}
    requires r.subtrees.Keys == t2.subtrees.Keys
    requires forall a :: a in t2.subtrees && a != p ==> r.subtrees[a] == t2.subtrees[a]
    ensures forall a :: a in r.subtrees && a != p && a !in Interner.Ancestors(c, p) && a != q ==>
      a in t.subtrees && r.subtrees[a] == t.subtrees[a]
  {
  }

  /** `r` has every subtree of `t`, and each of its subtrees holds the nodes
      `t` has there (none, for a subtree `t` lacks). */
  ghost predicate NodesAsIn(t: Tree, r: Tree)
  {
    && (forall a :: a in t.subtrees ==> a in r.subtrees)
    && (forall a :: a in r.subtrees ==> r.subtrees[a].nodes == GetOrDefault(t, a).nodes)
  }

  /** Adding subtrees or changing anything but their nodes keeps what the
      chain populated. */
  lemma NodesAsInKeeps(c: Arena, p: Path, t: Tree, t1: Tree, t2: Tree)
    requires Interner.Valid(c) && Interner.Has(c, p)
    requires AncestorsPopulated(c, t1, p) && OnlyPlaceholdersAdded(t, t1)
    requires NodesAsIn(t1, t2)
    ensures AncestorsPopulated(c, t2, p) && OnlyPlaceholdersAdded(t, t2)
  {
    var level := Interner.Level(c, p);
    forall k | 1 <= k <= level
      ensures Interner.Up(c, p, k) in t2.subtrees
      ensures Interner.ToVec(c, p)[level - k] in t2.subtrees[Interner.Up(c, p, k)].nodes
    {
      assert Interner.Up(c, p, k) in t1.subtrees;
    }
  }

  /** Putting a node at `p` keeps the nodes the ancestors of `p` hold. */
  lemma PutKeepsAncestors(c: Arena, p: Path, key: Key, node: Node, t1: Tree, r: Tree)
    requires Interner.Valid(c) && Interner.Has(c, p)
    requires AncestorsPopulated(c, t1, p)
    requires p in t1.subtrees && r == Tree(t1.subtrees[p := Insert(t1.subtrees[p], key, node)])
    ensures AncestorsPopulated(c, r, p)
  {
    var level := Interner.Level(c, p);
    forall k | 1 <= k <= level
      ensures Interner.Up(c, p, k) in r.subtrees
      ensures Interner.ToVec(c, p)[level - k] in r.subtrees[Interner.Up(c, p, k)].nodes
    {
      assert Interner.Up(c, p, k) != p by {
        assert |Interner.ToVec(c, Interner.Up(c, p, k))| < level;
      }
    }
  }

  /** Putting a node at `p` replaces only the node under `key` there, so with
      the placeholders the chain added, no other node is lost. */
  lemma PutKeepsNodes(t: Tree, p: Path, key: Key, node: Node, t1: Tree, r: Tree)
    requires OnlyPlaceholdersAdded(t, t1)
    requires p in t1.subtrees && r == Tree(t1.subtrees[p := Insert(t1.subtrees[p], key, node)])
    ensures NodesKeptBut(t, r, p, key)
  {
  }

  /** Inserts the node into the existing subtree at `p`. */
  function PutNode(c: Arena, t: Tree, p: Path, key: Key, node: Node): (r: (Arena, Tree))
    requires TreeValid(c, t) && p in t.subtrees
    ensures r.0 == c && r.1.subtrees.Keys == t.subtrees.Keys
    ensures forall q :: q in t.subtrees && q != p ==> r.1.subtrees[q] == t.subtrees[q]
    ensures key !in ChildKeys(node) ==> TreeValid(r.0, r.1)
    ensures GetNode(r.1, p, key) == Some(node)
  {
    (c, Tree(t.subtrees[p := Insert(t.subtrees[p], key, node)]))
  }

  /** `Tree::remove` as written: removes the node from the path's subtree, if
      there is one, with `Subtree::remove` as written. Only that subtree
      changes; its cluster roots stay in sync except that a removed cluster root
      remains one. */
  function RemoveNodeAsWritten(t: Tree, p: Path, key: Key): (r: Tree)
    ensures GetNode(r, p, key).None?
    ensures r.subtrees.Keys == t.subtrees.Keys
    ensures forall q :: q in t.subtrees && q != p ==> r.subtrees[q] == t.subtrees[q]
    ensures forall q, k :: q in t.subtrees && k in t.subtrees[q].nodes && (q, k) != (p, key) ==>
      GetNode(r, q, k) == GetNode(t, q, k)
    ensures p in t.subtrees && InSync(t.subtrees[p]) ==>
      r.subtrees[p].clusterRoots <= r.subtrees[p].nodes.Keys + {key}
  {
    if p in t.subtrees then Tree(t.subtrees[p := RemoveAsWritten(t.subtrees[p], key)]) else t
  }

  /** `Tree::remove` with the corrected `Subtree::remove`: a removed cluster
      root leaves the cluster roots, so every subtree stays in sync. */
  function RemoveNode(t: Tree, p: Path, key: Key): (r: Tree)
    ensures GetNode(r, p, key).None?
    ensures r.subtrees.Keys == t.subtrees.Keys
    ensures forall q :: q in t.subtrees && q != p ==> r.subtrees[q] == t.subtrees[q]
    ensures forall q, k :: q in t.subtrees && k in t.subtrees[q].nodes && (q, k) != (p, key) ==>
      GetNode(r, q, k) == GetNode(t, q, k)
    ensures TreeInSync(t) ==> TreeInSync(r)
  {
    if p in t.subtrees then Tree(t.subtrees[p := Remove(t.subtrees[p], key)]) else t
  }

  /** `Tree::clear_subtree` as written: drops every node of the subtree but keeps
      its cluster roots. */
  function ClearSubtreeAsWritten(t: Tree, p: Path): (r: Tree)
    ensures p in t.subtrees ==> p in r.subtrees && |r.subtrees[p].nodes| == 0
    ensures p in t.subtrees ==> r.subtrees[p].clusterRoots == t.subtrees[p].clusterRoots
    ensures p in t.subtrees ==> r.subtrees[p] == t.subtrees[p].(nodes := map[])
    ensures r.subtrees.Keys == t.subtrees.Keys
    ensures forall q :: q in t.subtrees && q != p ==> r.subtrees[q] == t.subtrees[q]
  {
    if p in t.subtrees then Tree(t.subtrees[p := t.subtrees[p].(nodes := map[])]) else t
  }

  /** `Tree::clear_subtree`, with the cluster roots cleared along with the nodes
      they belong to. */
  function ClearSubtree(t: Tree, p: Path): (r: Tree)
    ensures p in t.subtrees ==> p in r.subtrees && |r.subtrees[p].nodes| == 0
    ensures p in t.subtrees ==> r.subtrees[p] == t.subtrees[p].(nodes := map[], clusterRoots := {})
    ensures r.subtrees.Keys == t.subtrees.Keys
    ensures forall q :: q in t.subtrees && q != p ==> r.subtrees[q] == t.subtrees[q]
    ensures TreeInSync(t) ==> TreeInSync(r)
    ensures forall q :: q in t.subtrees && Inv(t.subtrees[q]) ==> Inv(r.subtrees[q])
  {
    if p in t.subtrees then Tree(t.subtrees[p := t.subtrees[p].(nodes := map[], clusterRoots := {})]) else t
  }

  /** Clearing a subtree that has a cluster root, as written, leaves that cluster
      root without a node. */
  lemma ClearSubtreeAsWrittenLosesSync()
    ensures var t := Tree(map[None := SubtreeState(None, {[1]}, map[[1] := Placeholder()], {})]);
      && TreeInSync(t)
      && !TreeInSync(ClearSubtreeAsWritten(t, None))
      && TreeInSync(ClearSubtree(t, None))
  {
    var t := Tree(map[None := SubtreeState(None, {[1]}, map[[1] := Placeholder()], {})]);
    assert !InSync(ClearSubtreeAsWritten(t, None).subtrees[None]);
  }
}
