/** The records the viewer receives from the database's debugging endpoint
    (the `grovedbg_types` crate, in the version the newer viewer code reads):
    elements, references and node updates. */
module Wire {
  import opened Common

  /** A 32-byte hash; the width plays no part in the model. */
  type CryptoHash = Bytes

  datatype FeatureType = BasicMerkNode | SummedMerkNode(sum: int)

  /** How a reference names its target, relative to the path and key of the
      element holding it. */
  datatype Reference =
    | AbsolutePathReference(path: seq<Key>)
    | UpstreamRootHeightReference(nKeep: nat, pathAppend: seq<Key>)
    | UpstreamRootHeightWithParentPathAdditionReference(nKeep: nat, pathAppend: seq<Key>)
    | UpstreamFromElementHeightReference(nRemove: nat, pathAppend: seq<Key>)
    | CousinReference(swapParent: Key)
    | RemovedCousinReference(swapParents: seq<Key>)
    | SiblingReference(siblingKey: Key)

  datatype Element =
    | Item(value: Bytes, flags: Option<Bytes>)
    | SumItem(sum: int, flags: Option<Bytes>)
    | ReferenceElement(reference: Reference, flags: Option<Bytes>)
    | Sumtree(rootKey: Option<Key>, sum: int, flags: Option<Bytes>)
    | Subtree(rootKey: Option<Key>, flags: Option<Bytes>)

  /** An element that stands for a nested subtree. */
  predicate IsTree(e: Element)
  {
    e.Sumtree? || e.Subtree?
  }

  /** One Merk node as fetched: where it is, what it holds, its children's
      keys and, for children, the hashes the parent knows them by. */
  datatype NodeUpdate = NodeUpdate(
    leftChild: Option<Key>,
    leftMerkHash: Option<CryptoHash>,
    rightChild: Option<Key>,
    rightMerkHash: Option<CryptoHash>,
    path: seq<Key>,
    key: Key,
    element: Element,
    featureType: FeatureType,
    valueHash: CryptoHash,
    kvDigestHash: CryptoHash)

  /** A node of a Merk proof, as the proof carries it. */
  datatype MerkProofNode =
    | Hash(hash: CryptoHash)
    | KVHash(hash: CryptoHash)
    | KVDigest(key: Key, hash: CryptoHash)
    | KV(key: Key, element: Element)
    | KVValueHash(key: Key, element: Element, hash: CryptoHash)
    | KVValueHashFeatureType(key: Key, element: Element, hash: CryptoHash, featureType: FeatureType)
    | KVRefValueHash(key: Key, element: Element, hash: CryptoHash)

  /** One operation of a Merk proof's stack program. */
  datatype MerkProofOp =
    | Push(node: MerkProofNode)
    | PushInverted(node: MerkProofNode)
    | Parent
    | Child
    | ParentInverted
    | ChildInverted

  /** One layer of a GroveDB proof: the Merk proof of one subtree and the
      layers of the subtrees below it. On the wire the lower layers are a
      `BTreeMap`, so their keys are distinct and ascending; the sequence here
      does not enforce that, and with a repeated key the later layer would
      replace the earlier one's path in the layer map. */
  datatype ProofLayer = ProofLayer(merkProof: seq<MerkProofOp>, lowerLayers: seq<(Key, ProofLayer)>)
}
