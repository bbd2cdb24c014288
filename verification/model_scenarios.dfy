/** The sample subtree of src/model.rs's tests, built node by node, and what
    removing and fetching back its nodes does to the bookkeeping.

        root
        ├── right1
        │   ├── right2
        │   └── left2
        │       ├── right4
        │       └── left4
        └── left1
            └── right3
*/
module ModelScenarios {
  import opened Common
  import opened Model

  const RootKey: Key := [114, 111, 111, 116]
  const Left1: Key := [108, 101, 102, 116, 49]
  const Right1: Key := [114, 105, 103, 104, 116, 49]
  const Left2: Key := [108, 101, 102, 116, 50]
  const Right2: Key := [114, 105, 103, 104, 116, 50]
  const Right3: Key := [114, 105, 103, 104, 116, 51]
  const Left4: Key := [108, 101, 102, 116, 52]
  const Right4: Key := [114, 105, 103, 104, 116, 52]

  /** An item node; the item values of the tests play no part in the
      bookkeeping, so each node holds its own key. */
  function ItemNode(key: Key, left: Option<Key>, right: Option<Key>): Node
  {
    Node(Item(key, None), left, right, None, None, None)
  }

  function RootNode(): Node { ItemNode(RootKey, Some(Left1), Some(Right1)) }
  function Right1Node(): Node { ItemNode(Right1, Some(Left2), Some(Right2)) }
  function Left1Node(): Node { ItemNode(Left1, None, Some(Right3)) }
  function Left2Node(): Node { ItemNode(Left2, Some(Left4), Some(Right4)) }

  /** The bookkeeping of a subtree rooted at `root` with no clusters. */
  ghost predicate Shape(s: SubtreeState, waiting: set<Key>, present: set<Key>)
  {
    s.waitlist == waiting && s.clusterRoots == {} && s.nodes.Keys == present && s.rootNode == Some(RootKey)
  }

  /** Fetching a node that was waited for (or the root) keeps a subtree free of
      clusters: the node stops being waited for and its missing children start. */
  lemma FetchWaited(s: SubtreeState, waiting: set<Key>, present: set<Key>, key: Key, node: Node)
    requires Shape(s, waiting, present) && key !in present && (key in waiting || key == RootKey)
    ensures Shape(Insert(s, key, node), (waiting - {key}) + (ChildKeys(node) - present), present + {key})
    ensures Insert(s, key, node).nodes == s.nodes[key := node]
  {
  }

  /** `sample_tree` fetched node by node; each node was waited for by its
      parent, so the build ends with nothing waited for and no clusters. */
  lemma SequentialInsertion(s0: SubtreeState, s1: SubtreeState, s2: SubtreeState, s3: SubtreeState,
                            s4: SubtreeState, s5: SubtreeState, s6: SubtreeState, s7: SubtreeState,
                            s8: SubtreeState)
    requires s0 == NewRoot(RootKey)
    requires s1 == Insert(s0, RootKey, RootNode())
    requires s2 == Insert(s1, Right1, Right1Node())
    requires s3 == Insert(s2, Left1, Left1Node())
    requires s4 == Insert(s3, Right2, ItemNode(Right2, None, None))
    requires s5 == Insert(s4, Left2, Left2Node())
    requires s6 == Insert(s5, Right3, ItemNode(Right3, None, None))
    requires s7 == Insert(s6, Right4, ItemNode(Right4, None, None))
    requires s8 == Insert(s7, Left4, ItemNode(Left4, None, None))
    ensures IsSample(s8)
  {
    BuildUpper(s0, s1, s2, s3, s4);
    BuildLower(s4, s5, s6, s7, s8);
  }

  lemma BuildUpper(s0: SubtreeState, s1: SubtreeState, s2: SubtreeState, s3: SubtreeState, s4: SubtreeState)
    requires s0 == NewRoot(RootKey)
    requires s1 == Insert(s0, RootKey, RootNode())
    requires s2 == Insert(s1, Right1, Right1Node())
    requires s3 == Insert(s2, Left1, Left1Node())
    requires s4 == Insert(s3, Right2, ItemNode(Right2, None, None))
    ensures Shape(s4, {Left2, Right3}, {RootKey, Right1, Left1, Right2})
    ensures s4.nodes[Right1] == Right1Node()
  {
    FetchRoot(s0, s1);
    FetchRight1(s1, s2);
    FetchLeft1(s2, s3);
    FetchRight2(s3, s4);
  }

  lemma BuildLower(s4: SubtreeState, s5: SubtreeState, s6: SubtreeState, s7: SubtreeState, s8: SubtreeState)
    requires Shape(s4, {Left2, Right3}, {RootKey, Right1, Left1, Right2})
    requires s4.nodes[Right1] == Right1Node()
    requires s5 == Insert(s4, Left2, Left2Node())
    requires s6 == Insert(s5, Right3, ItemNode(Right3, None, None))
    requires s7 == Insert(s6, Right4, ItemNode(Right4, None, None))
    requires s8 == Insert(s7, Left4, ItemNode(Left4, None, None))
    ensures IsSample(s8)
  {
    FetchLeft2(s4, s5);
    FetchRight3(s5, s6);
    FetchRight4(s6, s7);
    FetchLeft4(s7, s8);
  }

  /** One fetch of the build each: the waitlist after it and the nodes present. */
  lemma FetchRoot(s0: SubtreeState, s1: SubtreeState)
    requires Shape(s0, {}, {}) && s1 == Insert(s0, RootKey, RootNode())
    ensures Shape(s1, {Left1, Right1}, {RootKey}) && s1.nodes == s0.nodes[RootKey := RootNode()]
  {
    FetchWaited(s0, {}, {}, RootKey, RootNode());
  }

  lemma FetchRight1(s1: SubtreeState, s2: SubtreeState)
    requires Shape(s1, {Left1, Right1}, {RootKey}) && s2 == Insert(s1, Right1, Right1Node())
    ensures Shape(s2, {Left1, Left2, Right2}, {RootKey, Right1}) && s2.nodes == s1.nodes[Right1 := Right1Node()]
  {
    FetchWaited(s1, {Left1, Right1}, {RootKey}, Right1, Right1Node());
  }

  lemma FetchLeft1(s2: SubtreeState, s3: SubtreeState)
    requires Shape(s2, {Left1, Left2, Right2}, {RootKey, Right1}) && s3 == Insert(s2, Left1, Left1Node())
    ensures Shape(s3, {Left2, Right2, Right3}, {RootKey, Right1, Left1}) && s3.nodes == s2.nodes[Left1 := Left1Node()]
  {
    FetchWaited(s2, {Left1, Left2, Right2}, {RootKey, Right1}, Left1, Left1Node());
  }

  lemma FetchRight2(s3: SubtreeState, s4: SubtreeState)
    requires Shape(s3, {Left2, Right2, Right3}, {RootKey, Right1, Left1}) && s4 == Insert(s3, Right2, ItemNode(Right2, None, None))
    ensures Shape(s4, {Left2, Right3}, {RootKey, Right1, Left1, Right2}) && s4.nodes == s3.nodes[Right2 := ItemNode(Right2, None, None)]
  {
    FetchWaited(s3, {Left2, Right2, Right3}, {RootKey, Right1, Left1}, Right2, ItemNode(Right2, None, None));
  }

  lemma FetchLeft2(s4: SubtreeState, s5: SubtreeState)
    requires Shape(s4, {Left2, Right3}, {RootKey, Right1, Left1, Right2}) && s5 == Insert(s4, Left2, Left2Node())
    ensures Shape(s5, {Right3, Left4, Right4}, {RootKey, Right1, Left1, Right2, Left2}) && s5.nodes == s4.nodes[Left2 := Left2Node()]
  {
    FetchWaited(s4, {Left2, Right3}, {RootKey, Right1, Left1, Right2}, Left2, Left2Node());
  }

  lemma FetchRight3(s5: SubtreeState, s6: SubtreeState)
    requires Shape(s5, {Right3, Left4, Right4}, {RootKey, Right1, Left1, Right2, Left2}) && s6 == Insert(s5, Right3, ItemNode(Right3, None, None))
    ensures Shape(s6, {Left4, Right4}, {RootKey, Right1, Left1, Right2, Left2, Right3}) && s6.nodes == s5.nodes[Right3 := ItemNode(Right3, None, None)]
  {
    FetchWaited(s5, {Right3, Left4, Right4}, {RootKey, Right1, Left1, Right2, Left2}, Right3, ItemNode(Right3, None, None));
  }

  lemma FetchRight4(s6: SubtreeState, s7: SubtreeState)
    requires Shape(s6, {Left4, Right4}, {RootKey, Right1, Left1, Right2, Left2, Right3}) && s7 == Insert(s6, Right4, ItemNode(Right4, None, None))
    ensures Shape(s7, {Left4}, {RootKey, Right1, Left1, Right2, Left2, Right3, Right4}) && s7.nodes == s6.nodes[Right4 := ItemNode(Right4, None, None)]
  {
    FetchWaited(s6, {Left4, Right4}, {RootKey, Right1, Left1, Right2, Left2, Right3}, Right4, ItemNode(Right4, None, None));
  }

  lemma FetchLeft4(s7: SubtreeState, s8: SubtreeState)
    requires Shape(s7, {Left4}, {RootKey, Right1, Left1, Right2, Left2, Right3, Right4}) && s8 == Insert(s7, Left4, ItemNode(Left4, None, None))
    ensures Shape(s8, {}, AllKeys()) && s8.nodes == s7.nodes[Left4 := ItemNode(Left4, None, None)]
  {
    FetchWaited(s7, {Left4}, {RootKey, Right1, Left1, Right2, Left2, Right3, Right4}, Left4, ItemNode(Left4, None, None));
  }

  function AllKeys(): set<Key>
  {
    {RootKey, Right1, Left1, Right2, Left2, Right3, Right4, Left4}
  }

  /** What the tests rely on about the sample subtree. */
  ghost predicate IsSample(s: SubtreeState)
  {
    && Shape(s, {}, AllKeys())
    && s.nodes[Right1] == Right1Node() && s.nodes[Left2] == Left2Node()
    && s.nodes[Left4] == ItemNode(Left4, None, None)
  }

  /** `subtree_node_leaf_removal`: a removed leaf is waited for again. */
  lemma LeafRemoval(s: SubtreeState)
    requires IsSample(s)
    ensures var r := RemoveAsWritten(s, Left4);
      Left4 !in r.nodes && r.waitlist == {Left4} && r.clusterRoots == {}
  {
  }

  /** `subtree_node_leaf_complete_removal`: once its parent is fetched again
      without it, a removed leaf is no longer waited for. */
  lemma LeafCompleteRemoval(s: SubtreeState)
    requires IsSample(s)
    ensures var r := Insert(RemoveAsWritten(s, Left4), Left2, Left2Node().(left := None));
      Left4 !in r.nodes && r.waitlist == {} && r.clusterRoots == {}
  {
    LeafRemoval(s);
  }

  /** `subtree_mid_node_delete_creates_clusters`: removing an inner node makes
      its present children cluster roots, and fetching it back restores the
      original subtree exactly. */
  lemma MidNodeDeleteCreatesClusters(s: SubtreeState)
    requires IsSample(s)
    ensures var r := RemoveAsWritten(s, Right1);
      && Right1 !in r.nodes && r.waitlist == {Right1} && r.clusterRoots == {Right2, Left2}
      && Insert(r, Right1, Right1Node()) == s
  {
    RemoveInsertRoundTrip(s, Right1);
  }
}
