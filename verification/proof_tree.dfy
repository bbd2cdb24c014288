/** Rebuilding the binary tree of a Merk proof from its stack program, and
    laying out the layers of a GroveDB proof by path
    (src/protocol/proof_tree.rs). */
module ProofTree {
  import opened Common
  import Wire

  type Index = nat

  /** A node of a rebuilt proof tree: indices of its children in the flat
      vector, the proof's node, and the fetched node once it is matched. */
  datatype ProofNode = ProofNode(
    left: Option<Index>,
    right: Option<Index>,
    proofValue: Wire.MerkProofNode,
    nodeUpdate: Option<Wire.NodeUpdate>)

  /** `ProofNode::from`: a proof node with no children and nothing matched. */
  function FromProofValue(v: Wire.MerkProofNode): (n: ProofNode)
    ensures n.left.None? && n.right.None? && n.proofValue == v && n.nodeUpdate.None?
  {
    ProofNode(None, None, v, None)
  }

  datatype ProofSubtree = ProofSubtree(tree: seq<ProofNode>, root: Index)

  const ExpectedParent: string := "expected a parent item on the proof stack"
  const ExpectedChild: string := "expected a child item on the proof stack"
  const OnlyOneItem: string := "the proof stack must contain only one item"

  /** The state of the loop in `ProofSubtree::from_iter`. */
  datatype Machine = Machine(stack: seq<Index>, tree: seq<ProofNode>)

  predicate LinksIn(n: ProofNode, size: nat)
  {
    (n.left.Some? ==> n.left.value < size) && (n.right.Some? ==> n.right.value < size)
  }

  /** Every index on the stack and every child link points into the tree, and
      the stack's indices increase from bottom to top. */
  ghost predicate Good(m: Machine)
  {
    && (forall j :: 0 <= j < |m.stack| ==> m.stack[j] < |m.tree|)
    && (forall j, k :: 0 <= j < k < |m.stack| ==> m.stack[j] < m.stack[k])
    && (forall i :: 0 <= i < |m.tree| ==> LinksIn(m.tree[i], |m.tree|))
  }

  predicate IsPush(op: Wire.MerkProofOp)
  {
    op.Push? || op.PushInverted?
  }

  /** `Parent` and `ParentInverted` pop the parent first, the others the child. */
  predicate PopsParentFirst(op: Wire.MerkProofOp)
  {
    op.Parent? || op.ParentInverted?
  }

  /** `Parent` and `ChildInverted` attach the child on the left, the others on
      the right. */
  predicate AttachesLeft(op: Wire.MerkProofOp)
  {
    op.Parent? || op.ChildInverted?
  }

  function Attach(tree: seq<ProofNode>, parent: Index, child: Index, left: bool): (r: seq<ProofNode>)
    requires parent < |tree|
    ensures |r| == |tree|
    ensures forall i :: 0 <= i < |tree| && i != parent ==> r[i] == tree[i]
    ensures left ==> r[parent] == tree[parent].(left := Some(child))
    ensures !left ==> r[parent] == tree[parent].(right := Some(child))
  {
    tree[parent := if left then tree[parent].(left := Some(child)) else tree[parent].(right := Some(child))]
  }

  /** One op of `from_iter`: a push appends a childless node and pushes its
      index; any other op pops two indices (failing, with the role of the item
      it could not pop, if the stack runs out), links the child to the parent
      and pushes the parent back. */
  function Step(m: Machine, op: Wire.MerkProofOp): (r: Result<Machine, string>)
    requires Good(m)
    ensures r.Ok? <==> IsPush(op) || |m.stack| >= 2
    ensures r.Ok? ==> Good(r.value)
    ensures r.Ok? ==> |r.value.stack| == (if IsPush(op) then |m.stack| + 1 else |m.stack| - 1)
    ensures r.Ok? ==> |r.value.tree| == (if IsPush(op) then |m.tree| + 1 else |m.tree|)
    ensures r.Err? ==> r.error == ExpectedParent || r.error == ExpectedChild
    ensures r.Err? ==> (r.error == ExpectedParent <==> (|m.stack| == 0) == PopsParentFirst(op))
  {
    if IsPush(op) then
      Ok(Machine(m.stack + [|m.tree|], m.tree + [FromProofValue(op.node)]))
    else if |m.stack| == 0 then
      Err(if PopsParentFirst(op) then ExpectedParent else ExpectedChild)
    else if |m.stack| == 1 then
      Err(if PopsParentFirst(op) then ExpectedChild else ExpectedParent)
    else
      var n := |m.stack|;
      var top, next := m.stack[n - 1], m.stack[n - 2];
      var parent := if PopsParentFirst(op) then top else next;
      var child := if PopsParentFirst(op) then next else top;
      Ok(Machine(m.stack[..n - 2] + [parent], Attach(m.tree, parent, child, AttachesLeft(op))))
  }

  /** What a combining op does, in the terms of the source's comments: the
      item popped first and the one popped second are the parent and the child
      (in the order the op names), the child becomes the parent's left or right
      child, and the parent goes back on the stack in place of both. */
  lemma CombineLinks(m: Machine, op: Wire.MerkProofOp)
    requires Good(m) && !IsPush(op) && |m.stack| >= 2
    ensures var n := |m.stack|;
      var first, second := m.stack[n - 1], m.stack[n - 2];
      var parent := if PopsParentFirst(op) then first else second;
      var child := if PopsParentFirst(op) then second else first;
      var r := Step(m, op).value;
      && r.stack == m.stack[..n - 2] + [parent]
      && (AttachesLeft(op) ==> r.tree[parent].left == Some(child) && r.tree[parent].right == m.tree[parent].right)
      && (!AttachesLeft(op) ==> r.tree[parent].right == Some(child) && r.tree[parent].left == m.tree[parent].left)
      && (forall i :: 0 <= i < |m.tree| && i != parent ==> r.tree[i] == m.tree[i])
  {
  }

  /** The ops from the loop's current state on; the first error stops it. */
  function Run(m: Machine, ops: seq<Wire.MerkProofOp>): (r: Result<Machine, string>)
    requires Good(m)
    ensures r.Ok? ==> Good(r.value)
    ensures r.Err? ==> r.error == ExpectedParent || r.error == ExpectedChild
    decreases |ops|
  {
    if |ops| == 0 then Ok(m)
    else
      match Step(m, ops[0])
      case Err(e) => Err(e)
      case Ok(m1) => Run(m1, ops[1..])
  }

  /** The result `from_iter` is defined to have: the machine run from an empty
      stack, accepted only if exactly one index is left, which is the root. */
  function FromOps(ops: seq<Wire.MerkProofOp>): (r: Result<ProofSubtree, string>)
  {
    match Run(Machine([], []), ops)
    case Err(e) => Err(e)
    case Ok(m) => if |m.stack| == 1 then Ok(ProofSubtree(m.tree, m.stack[0])) else Err(OnlyOneItem)
  }

  /** `ProofSubtree::from_iter`. */
  method FromIter(ops: seq<Wire.MerkProofOp>) returns (r: Result<ProofSubtree, string>)
    ensures r == FromOps(ops)
    ensures r.Ok? <==> WellFormed(ops)
    ensures r.Ok? ==> |r.value.tree| == PushCount(ops) && r.value.root < |r.value.tree|
    ensures r.Ok? ==> forall i :: 0 <= i < |r.value.tree| ==> LinksIn(r.value.tree[i], |r.value.tree|)
  {
    FromOpsCharacterised(ops);
    var m := Machine([], []);
    var i := 0;
    while i < |ops|
      invariant 0 <= i <= |ops| && Good(m)
      invariant Run(Machine([], []), ops) == Run(m, ops[i..])
    {
      assert ops[i..][0] == ops[i] && ops[i..][1..] == ops[i + 1..];
      var s := Step(m, ops[i]);
      if s.Err? {
        return Err(s.error);
      }
      m := s.value;
      i := i + 1;
    }
    if |m.stack| == 1 {
      r := Ok(ProofSubtree(m.tree, m.stack[0]));
    } else {
      r := Err(OnlyOneItem);
    }
  }

  // ---------------------------------------------------------------- stack accounting

  /** Pushes minus combining ops. */
  function Balance(ops: seq<Wire.MerkProofOp>): int
  {
    if |ops| == 0 then 0 else (if IsPush(ops[0]) then 1 else -1) + Balance(ops[1..])
  }

  function PushCount(ops: seq<Wire.MerkProofOp>): nat
  {
    if |ops| == 0 then 0 else (if IsPush(ops[0]) then 1 else 0) + PushCount(ops[1..])
  }

  /** Starting with `start` items, every combining op finds two items on the
      stack. */
  ghost predicate NeverShort(ops: seq<Wire.MerkProofOp>, start: int)
  {
    forall i :: 0 <= i < |ops| && !IsPush(ops[i]) ==> start + Balance(ops[..i]) >= 2
  }

  /** A proof program `from_iter` accepts: no pop ever finds the stack empty and
      exactly one item is left at the end. */
  ghost predicate WellFormed(ops: seq<Wire.MerkProofOp>)
  {
    NeverShort(ops, 0) && Balance(ops) == 1
  }

  lemma NeverShortCons(ops: seq<Wire.MerkProofOp>, start: int)
    requires |ops| > 0
    ensures NeverShort(ops, start) <==>
      && (IsPush(ops[0]) || start >= 2)
      && NeverShort(ops[1..], start + (if IsPush(ops[0]) then 1 else -1))
  {
    var d := if IsPush(ops[0]) then 1 else -1;
    forall i | 1 <= i <= |ops|
      ensures Balance(ops[..i]) == d + Balance(ops[1..][..i - 1])
    {
      assert ops[..i][0] == ops[0];
      assert ops[..i][1..] == ops[1..][..i - 1];
    }
    assert ops[..0] == [];
    if NeverShort(ops[1..], start + d) && (IsPush(ops[0]) || start >= 2) {
      forall i | 0 <= i < |ops| && !IsPush(ops[i])
        ensures start + Balance(ops[..i]) >= 2
      {
        if i > 0 {
          assert ops[1..][i - 1] == ops[i];
        }
      }
    }
    if NeverShort(ops, start) {
      forall i | 0 <= i < |ops[1..]| && !IsPush(ops[1..][i])
        ensures start + d + Balance(ops[1..][..i]) >= 2
      {
        assert ops[1..][i] == ops[i + 1];
      }
    }
  }

  /** The machine runs through exactly when no combining op finds fewer than
      two items; the stack then grows by the balance of the ops and the tree by
      one node per push. */
  lemma {:induction false} RunCounts(m: Machine, ops: seq<Wire.MerkProofOp>)
    requires Good(m)
    ensures Run(m, ops).Ok? <==> NeverShort(ops, |m.stack|)
    ensures Run(m, ops).Ok? ==>
      && |Run(m, ops).value.stack| == |m.stack| + Balance(ops)
      && |Run(m, ops).value.tree| == |m.tree| + PushCount(ops)
    decreases |ops|
  {
    if |ops| > 0 {
      NeverShortCons(ops, |m.stack|);
      var s := Step(m, ops[0]);
      if s.Ok? {
        RunCounts(s.value, ops[1..]);
      }
    }
  }

  /** `from_iter` succeeds exactly on well-formed programs; the tree then has
      one node per push, the root is one of them and every link points into
      the tree. A failure reports the missing item of the first pop that
      found the stack short, or, if none did, that more or fewer than one item
      was left. */
  lemma FromOpsCharacterised(ops: seq<Wire.MerkProofOp>)
    ensures FromOps(ops).Ok? <==> WellFormed(ops)
    ensures FromOps(ops).Ok? ==>
      && |FromOps(ops).value.tree| == PushCount(ops)
      && FromOps(ops).value.root < |FromOps(ops).value.tree|
      && forall i :: 0 <= i < |FromOps(ops).value.tree| ==>
           LinksIn(FromOps(ops).value.tree[i], |FromOps(ops).value.tree|)
    ensures FromOps(ops).Err? ==> (FromOps(ops).error == OnlyOneItem <==> NeverShort(ops, 0))
    ensures FromOps(ops).Err? && !NeverShort(ops, 0) ==>
      FromOps(ops).error == ExpectedParent || FromOps(ops).error == ExpectedChild
  {
    RunCounts(Machine([], []), ops);
  }

  /** Two pushes leave two items on the stack, which is refused. */
  lemma TwoPushesFail(x: Wire.MerkProofNode, y: Wire.MerkProofNode)
    ensures FromOps([Wire.Push(x), Wire.Push(y)]) == Err(OnlyOneItem)
  {
    var ops := [Wire.Push(x), Wire.Push(y)];
    var m1 := Machine([0], [FromProofValue(x)]);
    var m2 := Machine([0, 1], [FromProofValue(x), FromProofValue(y)]);
    assert [] + [0] == [0] && [] + [FromProofValue(x)] == [FromProofValue(x)];
    assert Step(Machine([], []), ops[0]) == Ok(m1);
    assert [0] + [1] == [0, 1] && [FromProofValue(x)] + [FromProofValue(y)] == [FromProofValue(x), FromProofValue(y)];
    assert Step(m1, ops[1]) == Ok(m2);
    assert ops[1..][1..] == [];
    assert Run(m1, ops[1..]) == Run(m2, []);
  }

  /** Two pushes and `Parent`: the second node is the root and the first is its
      left child. */
  lemma PushPushParent(x: Wire.MerkProofNode, y: Wire.MerkProofNode)
    ensures FromOps([Wire.Push(x), Wire.Push(y), Wire.Parent]) ==
      Ok(ProofSubtree([FromProofValue(x), FromProofValue(y).(left := Some(0))], 1))
  {
    var ops := [Wire.Push(x), Wire.Push(y), Wire.Parent];
    var m1 := Machine([0], [FromProofValue(x)]);
    var m2 := Machine([0, 1], [FromProofValue(x), FromProofValue(y)]);
    var m3 := Machine([1], [FromProofValue(x), FromProofValue(y).(left := Some(0))]);
    assert [] + [0] == [0] && [] + [FromProofValue(x)] == [FromProofValue(x)];
    assert Step(Machine([], []), ops[0]) == Ok(m1);
    assert [0] + [1] == [0, 1] && [FromProofValue(x)] + [FromProofValue(y)] == [FromProofValue(x), FromProofValue(y)];
    assert Step(m1, ops[1]) == Ok(m2);
    assert m2.stack[..0] + [1] == [1];
    assert Attach(m2.tree, 1, 0, true) == m3.tree;
    assert Step(m2, ops[2]) == Ok(m3);
    assert ops[1..][1..][1..] == [];
    assert Run(m2, ops[1..][1..]) == Run(m3, []);
    assert Run(m1, ops[1..]) == Run(m2, ops[1..][1..]);
  }

  // ---------------------------------------------------------------- layers

  type LayerPath = seq<Key>

  /** Every layer below `l` at path `p`, with its path: `l` itself, and each
      lower layer under `p` extended by its key. */
  function Entries(p: LayerPath, l: Wire.ProofLayer): (r: set<(LayerPath, Wire.ProofLayer)>)
    ensures (p, l) in r
    ensures forall e :: e in r ==> |e.0| >= |p| && (e.0 == p ==> e == (p, l))
    decreases l, |l.lowerLayers| + 1
  {
    {(p, l)} + EntriesOf(p, l, 0)
  }

  /** The entries below the lower layers of `l` from the `i`-th on. */
  function EntriesOf(p: LayerPath, l: Wire.ProofLayer, i: nat): (r: set<(LayerPath, Wire.ProofLayer)>)
    requires i <= |l.lowerLayers|
    ensures forall e :: e in r ==> |e.0| > |p|
    decreases l, |l.lowerLayers| - i
  {
    if i == |l.lowerLayers| then {}
    else
      var child := l.lowerLayers[i];
      assert child.1 < child < l;
      Entries(p + [child.0], child.1) + EntriesOf(p, l, i + 1)
  }

  function Children(p: LayerPath, ls: seq<(Key, Wire.ProofLayer)>): (r: seq<(LayerPath, Wire.ProofLayer)>)
    ensures |r| == |ls|
  {
    if |ls| == 0 then [] else [(p + [ls[0].0], ls[0].1)] + Children(p, ls[1..])
  }

  function QueueEntries(q: seq<(LayerPath, Wire.ProofLayer)>): set<(LayerPath, Wire.ProofLayer)>
  {
    if |q| == 0 then {} else Entries(q[0].0, q[0].1) + QueueEntries(q[1..])
  }

  /** The number of layers in `l`, itself included. */
  function Size(l: Wire.ProofLayer): nat
    decreases l, |l.lowerLayers| + 1
  {
    1 + SizeOf(l, 0)
  }

  function SizeOf(l: Wire.ProofLayer, i: nat): nat
    requires i <= |l.lowerLayers|
    decreases l, |l.lowerLayers| - i
  {
    if i == |l.lowerLayers| then 0
    else
      var child := l.lowerLayers[i];
      assert child.1 < child < l;
      Size(child.1) + SizeOf(l, i + 1)
  }

  function QueueSize(q: seq<(LayerPath, Wire.ProofLayer)>): nat
  {
    if |q| == 0 then 0 else Size(q[0].1) + QueueSize(q[1..])
  }

  lemma {:induction false} QueueAppend(a: seq<(LayerPath, Wire.ProofLayer)>, b: seq<(LayerPath, Wire.ProofLayer)>)
    ensures QueueEntries(a + b) == QueueEntries(a) + QueueEntries(b)
    ensures QueueSize(a + b) == QueueSize(a) + QueueSize(b)
    decreases |a|
  {
    if |a| > 0 {
      assert (a + b)[0] == a[0] && (a + b)[1..] == a[1..] + b;
      QueueAppend(a[1..], b);
    } else {
      assert a + b == b;
    }
  }

  lemma {:induction false} ChildrenEntries(p: LayerPath, l: Wire.ProofLayer, i: nat)
    requires i <= |l.lowerLayers|
    ensures QueueEntries(Children(p, l.lowerLayers[i..])) == EntriesOf(p, l, i)
    ensures QueueSize(Children(p, l.lowerLayers[i..])) == SizeOf(l, i)
    decreases |l.lowerLayers| - i
  {
    if i < |l.lowerLayers| {
      ChildrenEntries(p, l, i + 1);
      assert l.lowerLayers[i..][1..] == l.lowerLayers[i + 1..];
    }
  }

  /** The layer loop of `ProofTree::new`, before the root node is fetched:
      breadth first from the root layer at the empty path, each layer's Merk
      proof is rebuilt and stored under its path, and its lower layers are
      queued under the path extended by their keys. The first layer whose
      proof does not rebuild aborts the loop with that error. */
  method Layers(root: Wire.ProofLayer) returns (r: Result<map<LayerPath, ProofSubtree>, string>)
    ensures r.Ok? <==> forall e :: e in Entries([], root) ==> FromOps(e.1.merkProof).Ok?
    ensures r.Ok? ==> r.value.Keys == set e | e in Entries([], root) :: e.0
    ensures r.Ok? ==> forall p :: p in r.value ==>
      exists e :: e in Entries([], root) && e.0 == p && FromOps(e.1.merkProof) == Ok(r.value[p])
    ensures r.Ok? ==> [] in r.value && FromOps(root.merkProof) == Ok(r.value[[]])
    ensures r.Err? ==> exists e :: e in Entries([], root) && FromOps(e.1.merkProof) == Err(r.error)
  {
    var queue: seq<(LayerPath, Wire.ProofLayer)> := [([], root)];
    var tree: map<LayerPath, ProofSubtree> := map[];
    ghost var seen: set<(LayerPath, Wire.ProofLayer)> := {};
    assert QueueEntries(queue) == Entries([], root);
    while |queue| > 0
      invariant Entries([], root) == seen + QueueEntries(queue)
      invariant forall e :: e in seen ==> FromOps(e.1.merkProof).Ok?
      invariant tree.Keys == set e | e in seen :: e.0
      invariant forall p :: p in tree ==> exists e :: e in seen && e.0 == p && FromOps(e.1.merkProof) == Ok(tree[p])
      decreases QueueSize(queue)
    {
      var (path, layer) := queue[0];
      assert (path, layer) in Entries([], root);
      var sub := FromIter(layer.merkProof);
      if sub.Err? {
        return Err(sub.error);
      }
      var children := Children(path, layer.lowerLayers);
      QueueAppend(queue[1..], children);
      assert layer.lowerLayers[0..] == layer.lowerLayers;
      ChildrenEntries(path, layer, 0);
      tree := tree[path := sub.value];
      seen := seen + {(path, layer)};
      queue := queue[1..] + children;
    }
    r := Ok(tree);
    RootStored(root, seen, tree);
  }

  lemma RootStored(root: Wire.ProofLayer, seen: set<(LayerPath, Wire.ProofLayer)>, tree: map<LayerPath, ProofSubtree>)
    requires Entries([], root) == seen
    requires tree.Keys == set e | e in seen :: e.0
    requires forall p :: p in tree ==> exists e :: e in seen && e.0 == p && FromOps(e.1.merkProof) == Ok(tree[p])
    ensures [] in tree && FromOps(root.merkProof) == Ok(tree[[]])
  {
    assert ([], root) in seen;
    var e :| e in seen && e.0 == [] && FromOps(e.1.merkProof) == Ok(tree[[]]);
  }

  /** `ProofTree::fetch_additional_data`: matches nothing yet and succeeds. */
  function FetchAdditionalData(t: map<LayerPath, ProofSubtree>): (r: Result<map<LayerPath, ProofSubtree>, string>)
    ensures r == Ok(t)
  {
    Ok(t)
  }
}
