# grovedbg core, modelled in Dafny

grovedbg is a visual debugger for GroveDB: it fetches Merk nodes and proofs
from a running node and shows them as a tree of subtrees. This project models
the parts of it that hold state and compute, leaving out the drawing and the
networking:

- **Path interning** (`Interner`, `PathCtx`, `PathDisplay`). Every path is a
  chain of segments in a slab arena. A path handle is the id of its last
  segment, and the root is `None`. `child` returns the existing segment for a
  key or appends a new one, so two handles are equal exactly when their key
  sequences are equal. `PathCtx` (src/path_ctx.rs) and the older
  `PathDisplay` (src/model/path_display.rs) share the arena and differ in their
  display variants, their ordering and their traversals. `level`, `parent`,
  `parent_with_key`, `to_vec` and `for_segments` are the same walk in both
  files, so they are defined once, in `Interner`.
- **The subtree model** (`Model`, `ModelScenarios`). A subtree keeps three
  things: the fetched nodes, the keys still waited for, and the cluster roots,
  which are present nodes whose parent is missing. The tree of subtrees is
  populated along the chain of a path. The tests' sample subtree is rebuilt
  node by node. `Subtree::insert` and `Tree::remove` use `remove` as written,
  and so do `Model.Insert` and `Model.RemoveNodeAsWritten`. The corrected
  `Model.Remove`, `Model.RemoveNode` and `Model.ClearSubtree` sit next to the
  as-written versions (see Findings).
- **The data view's store** (`TreeData`): applying a fetched node update to
  the per-subtree element maps. This covers placeholders for missing
  ancestors and children, child-subtree root keys, and node hashes.
- **Proofs** (`ProofTree`): the stack program that rebuilds a Merk proof
  tree, and the breadth-first walk over the layers of a GroveDB proof.
- **References**:
  - `ProtoConversion` turns a wire element into a model element, computing
    the absolute path of a reference.
  - `ReferenceView` resolves a reference shown in the data view.
  - The two are related by a common meaning, `ReferenceView.Designated`.
- **Byte rendering and input** (`BytesUtils`, `UiCommon`): display variants,
  the guess made from a value's length, hex, slice and integer renderings,
  and the text input that reads bytes back.

Integers are unbounded. Rust's fixed-width integers appear only where their
width is the point: big-endian encodings and two's complement. `Text` and
`Common` hold shared helpers: decimal and hex text, tokenising, joining, and
sequence maps. `Wire` holds the wire types the core consumes.

## Model

| member | source | states |
|---|---|---|
| Interner.New | src/path_ctx.rs:42-44 | A new context has no segments and is a well-formed arena. |
| Interner.FindChild | src/path_ctx.rs:201-207 | The lookup finds a child of the path with that key exactly when one exists. |
| Interner.Child | src/path_ctx.rs:197-234 | `child` returns a segment under the path with the given key. It reuses an existing child and leaves the arena unchanged; otherwise it appends one segment with the guessed display, one level deeper. |
| Interner.NewChild | src/path_ctx.rs:214-229 | The allocation branch appends exactly one segment, with the given parent, key and display, and keeps the arena valid. |
| Interner.ChildPath | src/path_ctx.rs:197-234 | The child's key sequence is the parent's followed by the key. `parent_with_key` of the child gives back the parent and the key, and the child is one level deeper. |
| Interner.ChildIdempotent | src/path_ctx.rs:201-213 | Asking again for a child that now exists returns the same handle and changes nothing. |
| Interner.Interned | src/path_ctx.rs:119-123 | Comparing head ids, as `eq` does, is sound: two paths of a valid arena have the same id exactly when they have the same keys. |
| Interner.Parent | src/path_ctx.rs:172-181 | Only the root has no parent, and a parent is one level up. |
| Interner.ParentWithKey | src/path_ctx.rs:183-195 | The pair is the parent and the key of the last segment: the parent's keys followed by that key are the path's keys. It is absent only for the root. |
| Interner.ToVec | src/path_ctx.rs:278-289 | The key sequence has one key per level of the path. |
| Interner.CollectPath | src/path_ctx.rs:278-289 | The loop that walks up and then reverses yields the path's key sequence, root first. |
| Interner.Segments | src/path_ctx.rs:262-276 | The segments are listed root first, each with its key and its level. |
| Interner.ToVecExtends | src/path_ctx.rs:214-229 | Interning new segments never changes the keys of an existing path. |
| Interner.AddFrom | src/path_ctx.rs:61-71 | Adding keys below a path gives the path whose keys are the starting path's followed by them. |
| Interner.AddPath | src/path_ctx.rs:53-59 | `add_path` gives the interned path whose key sequence is exactly the input. |
| Interner.AddFromExisting | src/path_ctx.rs:53-59 | Adding keys that lead to an already interned path allocates nothing and returns that path. |
| Interner.AddPathOfToVec | src/path_ctx.rs:53-59 | Re-adding any path's key sequence returns the same handle, so `add_path` inverts `to_vec`. |
| Interner.Up | src/path_ctx.rs:172-181 | Taking `parent` k times keeps the first level-minus-k keys. |
| Interner.SetDisplay | src/path_ctx.rs:246-252 | Only the last segment's display changes; the root has none to change. |
| Interner.GetDisplay | src/path_ctx.rs:254-260 | There is a display exactly for the non-root paths. |
| PathCtx.New | src/path_ctx.rs:42-44 | The context starts empty and with no selection. |
| PathCtx.GetRoot | src/path_ctx.rs:46-51 | The root is at level 0, has no keys and has no parent. |
| PathCtx.Child | src/path_ctx.rs:197-234 | The child keeps the selection and the arena grows. A new segment shows in the variant guessed from its key. |
| PathCtx.AddPath | src/path_ctx.rs:53-71 | `add_path` and `add_iter` intern exactly the given keys, at level equal to their number. |
| PathCtx.SelectForQuery | src/path_ctx.rs:291-297 | Selecting leaves the arena alone and records a selection. |
| PathCtx.GetSelectedForQuery | src/path_ctx.rs:73-81 | There is a selected path exactly when a selection was made, and it is a path of the arena. |
| PathCtx.SelectedRoundTrip | src/path_ctx.rs:73-81 | Selecting a path and reading the selection back gives that path. |
| PathCtx.CompareIsTotalOrder | src/path_ctx.rs:125-142 | Ordering by level and then id is a total order consistent with `eq`, and shallower paths come first. |
| PathCtx.RootAndParentsFirst | src/path_ctx.rs:125-142 | The root sorts before every other path, and a parent before its child. |
| PathCtx.FullPathDisplayJoins | src/path_ctx.rs:321-336 | No segments show as `Root tree`; otherwise the segments are joined by `, ` inside brackets. |
| PathCtx.SegmentTexts | src/path_ctx.rs:306-319 | One text per segment, root first: each segment's key rendered in that segment's own display variant. |
| PathCtx.PathText | src/path_ctx.rs:306-336 | A path shows as `Root tree` exactly when it is the root. Any other path shows its segment texts, root first, joined by `, ` in brackets. |
| PathDisplay.New | src/model/path_display.rs:28-33 | The older context starts empty and valid. |
| PathDisplay.GetRoot | src/model/path_display.rs:35-40 | The root has level 0 and no keys. |
| PathDisplay.Child | src/model/path_display.rs:132-172 | The child's keys are the parent's plus the key. A new segment shows in the older guessed variant. |
| PathDisplay.AddPath | src/model/path_display.rs:42-48 | The path interned has exactly the given keys. |
| PathDisplay.IsRootIffEmpty | src/model/path_display.rs:174-176 | `is_root` holds exactly for the path with no keys, at level 0, with no parent. |
| PathDisplay.ForChildren | src/model/path_display.rs:242-258 | Exactly the children of the path are listed, once each, in creation order. |
| Interner.CompareIds | src/model/path_display.rs:87-100 | The older ordering compares head ids only, with the root first. It is zero exactly on equal paths and negative exactly when the first id is smaller. |
| PathDisplay.AncestorsFirst | src/model/path_display.rs:87-100 | Ordering by id still sorts every ancestor before its descendants. |
| PathDisplay.IdOrderIsNotDepthOrder | src/model/path_display.rs:87-100 | In the older ordering a deeper path created earlier sorts before a shallower one. |
| PathDisplay.ForEachDescendant | src/model/path_display.rs:260-295 | The breadth-first walk hands every descendant to the callback exactly once, nothing else, shallower paths first. |
| PathDisplay.ForEachSegment | src/model/path_display.rs:260-295 | Started at the root, the walk visits every segment of the arena once. |
| Model.Placeholder | src/model.rs:769-774 | A subtree placeholder node has no children. |
| Model.Empty | src/model.rs:266-268 | A new subtree has no nodes and satisfies the bookkeeping invariants. |
| Model.NewRoot | src/model.rs:270-275 | The new subtree knows its root key, has no nodes and satisfies the invariants. |
| Model.RemoveAsWritten | src/model.rs:415-450 | `remove` as written: a missing key is a no-op. Otherwise the node leaves, its children stop being waited for, and those still present become cluster roots. The key stays a cluster root exactly when it was one, and is waited for exactly when it is neither the root nor a cluster root. No other waitlist or cluster-root entry changes, and the invariant is kept. |
| Model.RemoveDiffersOnlyInKey | src/model.rs:440-448 | On a present key, the corrected `remove` is the as-written one with the removed key taken out of the cluster roots. |
| Model.Remove | src/model.rs:415-452 | Corrected `remove`: the node leaves and its present children become cluster roots. Its children stop being waited for. The key is waited for exactly when it is neither the root nor a cluster root. Cluster roots stay present nodes. |
| Model.Insert | src/model.rs:454-500 | The node replaces any node under its key, after the as-written `remove`, and no other node changes. Its children stop being cluster roots, and missing children are waited for. The key is not waited for unless it names itself. No waitlist or cluster-root entry changes other than the key, the node's children and the old node's children. The invariants are kept. |
| Model.InsertFresh | src/model.rs:467-479 | A new key leaves the waitlist if it was waited for. Otherwise, unless it is the root, it becomes a cluster root. |
| Model.InsertNotExists | src/model.rs:502-506 | A present key keeps its node; a missing one gets the given node. |
| Model.SetRoot | src/model.rs:400-404 | The root key is set and stops being a cluster root; nodes and waitlist are untouched. |
| Model.SubtreeKeys | src/model.rs:508-516 | Exactly the present keys whose node stands for a subtree are listed. |
| Model.InsertIdempotent | src/model.rs:454-500 | Fetching the same node twice leaves the subtree as fetching it once did, in any subtree keeping the waitlist invariant, whenever the node does not name itself as a child. |
| Model.RemoveInsertRoundTrip | src/model.rs:415-500 | Removing a node as written and fetching it back restores the subtree exactly. This holds when its missing children are waited for and none of its children is a cluster root. |
| Model.RemoveAsWrittenLosesSync | src/model.rs:342-346 | Removing a cluster root as written leaves a cluster root that is not a node; the corrected `remove` keeps them in sync. |
| Model.NewTree | src/model.rs:64-70 | A new tree has no subtrees. |
| Model.GetNode | src/model.rs:116-121 | A node is found exactly when its subtree exists and holds the key, and it is that node. |
| Model.SetTreeRoot | src/model.rs:93-99 | The root subtree exists and has the root key; no other subtree changes. |
| Model.Chain | src/model.rs:192-197 | After the loop, every proper ancestor subtree holds a node for the next segment. Only placeholders are added, only at shallower paths. |
| Model.PopulateSubtreesChain | src/model.rs:190-198 | The path's subtree exists unchanged and every ancestor holds a node leading to it. Nothing existing is lost or changed. |
| Model.AddChildSubtree | src/model.rs:156-163 | The child subtree at the path plus the key exists with the element's root key; other subtrees are untouched. |
| Model.InsertNode | src/model.rs:135-169 | After `insert` the node is found at its path and key, and the arena only grows. Every ancestor subtree exists and holds a node for the next key. No other node is lost or changed, and every other node added is a placeholder. A subtree element's child subtree exists at the path plus the key, with its root key. Only the path's, its ancestors' and that child's subtrees change. The tree stays well formed unless the node lists itself as a child. |
| Model.PutNode | src/model.rs:165-168 | Storing into the existing subtree changes only that subtree, and the node is then found there. |
| Model.RemoveNodeAsWritten | src/model.rs:171-175 | `Tree::remove` as the source calls it: the node is gone, only its subtree changes, and every other node stays. If the subtree's cluster roots were present nodes, they still are, except possibly the removed key. |
| Model.RemoveNode | src/model.rs:171-175 | `Tree::remove` with the corrected `remove`: the node is gone, every other node stays, and every subtree's cluster roots stay present nodes. |
| Model.ClearSubtreeAsWritten | src/model.rs:181-185 | `clear_subtree` as written: the subtree loses its nodes and keeps its root, waitlist and cluster roots. Every other subtree is unchanged. |
| Model.ClearSubtree | src/model.rs:181-185 | Corrected `clear_subtree`: the subtree loses its nodes and its cluster roots, and keeps its root and waitlist. Every other subtree is unchanged, and the tree stays in sync. |
| Model.ClearSubtreeAsWrittenLosesSync | src/model.rs:181-185 | Clearing a subtree with a cluster root as written leaves that cluster root without a node. |
| ModelScenarios.FetchWaited | src/model.rs:454-500 | Fetching a waited-for node keeps a subtree free of clusters. The node stops being waited for and its missing children start being waited for. |
| ModelScenarios.SequentialInsertion | src/model.rs:832-880 | Building the sample subtree top-down ends with all eight nodes, nothing waited for and no clusters. |
| ModelScenarios.LeafRemoval | src/model.rs:882-895 | A removed leaf is waited for again, with no cluster created. |
| ModelScenarios.LeafCompleteRemoval | src/model.rs:897-909 | Once its parent is fetched without it, a removed leaf is no longer waited for. |
| ModelScenarios.MidNodeDeleteCreatesClusters | src/model.rs:911-937 | Removing an inner node makes its two children cluster roots, and fetching it back restores the subtree. |
| TreeData.NewPlaceholder | src/tree_view/element_view.rs:43-61 | A placeholder has only its key, no children or hashes, and hex hash displays. |
| TreeData.NewElement | src/tree_view/element_view.rs:63-94 | The fields are kept. An item's value shows in the variant guessed from its bytes, anything else in hex. No node hash is set yet. |
| TreeData.GetRoot | src/tree_data.rs:25-29 | There is a root element exactly when the root key is set and its element exists. |
| TreeData.New | src/tree_data.rs:43-50 | The store starts empty, with the root selected for the Merk view. |
| TreeData.SelectForMerk | src/tree_data.rs:56-58 | Only the selection changes. |
| TreeData.GetMerkSelected | src/tree_data.rs:52-54 | The selected path is returned and its subtree exists afterwards. |
| TreeData.SelectedForMerkRoundTrip | src/tree_data.rs:52-58 | Selecting a path and asking for the selection gives that path back, with its subtree. |
| TreeData.EnsureElement | src/tree_data.rs:73-76 | A placeholder is added only where the key is missing. |
| TreeData.Chain | src/tree_data.rs:70-79 | Every proper ancestor subtree gains an element for the next segment. Only placeholders are added, only at shallower paths. |
| TreeData.GetCreateMissingParents | src/tree_data.rs:69-82 | The path's subtree exists unchanged, and every ancestor holds an element leading to it. Nothing existing is lost or changed. |
| TreeData.Get | src/tree_data.rs:60-67 | An existing subtree is returned without change. A missing one is created empty, with its ancestors populated. |
| TreeData.Upsert | src/tree_data.rs:116-136 | The element under the fetched key carries the update's element, children and hashes. A vacant key gets a new element; an existing one keeps its node hash and displays. |
| TreeData.SetNodeHash | src/tree_data.rs:138-162 | A child's node hash is recorded only when both hash and child key are given, on a placeholder if the child is missing. Nothing else changes. |
| TreeData.UpdateElements | src/tree_data.rs:116-162 | The fetched element is set and each given child hash is recorded. Other elements keep everything but possibly their node hash, and new entries are placeholders. |
| TreeData.PrepareUpdate | src/tree_data.rs:104-114 | The update's subtree exists at its interned path. A subtree element links its child subtree, and no element is lost. |
| TreeData.LinkChildSubtree | src/tree_data.rs:106-112 | The child subtree has the element's root key, and the parent lists the key among its subtree keys. |
| TreeData.ApplyNodeUpdate | src/tree_data.rs:89-164 | The subtree holds the fetched element with its children's hashes, and a subtree element's child subtree is rooted. Only placeholders are added; nothing else is lost. |
| TreeData.ApplyRootNodeUpdate | src/tree_data.rs:84-87 | The root subtree's root key is the update's key, and the update is applied. |
| ProofTree.FromProofValue | src/protocol/proof_tree.rs:16-25 | A proof node starts with no children and no matched update. |
| ProofTree.Step | src/protocol/proof_tree.rs:86-137 | A push adds a node. A combining op needs two items and links child to parent; on too few items it fails with the expected-parent or expected-child error, by pop order. |
| ProofTree.CombineLinks | src/protocol/proof_tree.rs:94-137 | Each combining op attaches the popped child on the side its name says and leaves the parent on the stack. |
| ProofTree.Run | src/protocol/proof_tree.rs:85-140 | Running ops keeps all links and stack entries inside the tree; errors are the two pop errors. |
| ProofTree.FromIter | src/protocol/proof_tree.rs:77-144 | `from_iter` succeeds exactly on well-formed programs, with one node per push, a root inside the tree and all links inside it. |
| ProofTree.RunCounts | src/protocol/proof_tree.rs:85-140 | The machine runs through exactly when no combining op finds fewer than two items, and the stack ends at start plus balance. |
| ProofTree.FromOpsCharacterised | src/protocol/proof_tree.rs:77-144 | Success exactly on well-formed programs, with one node per push and every link inside the tree. The one-item error is reported exactly when no pop found the stack short; otherwise one of the two pop errors. |
| ProofTree.TwoPushesFail | src/protocol/proof_tree.rs:141-143 | Two pushes leave two items, which is refused. |
| ProofTree.PushPushParent | src/protocol/proof_tree.rs:94-104 | Two pushes and `Parent` give a tree whose root is the second node, with the first as its left child. |
| ProofTree.Layers | src/protocol/proof_tree.rs:39-52 | The layer walk succeeds exactly when every layer's Merk proof does. The map's paths are exactly the layer paths, each with its rebuilt proof, and an error comes from some layer. |
| ProofTree.RootStored | src/protocol/proof_tree.rs:54-55 | The root layer's rebuilt proof is stored under the empty path. |
| ProofTree.FetchAdditionalData | src/protocol/proof_tree.rs:66-68 | It matches nothing and returns the tree unchanged. |
| ProtoConversion.FromAbsolutePathReference | src/fetch/proto_conversion.rs:56-68 | An absolute path resolves to its own keys: the path but the last interned, the last as the key. It fails exactly when the path is empty. |
| ProtoConversion.FromUpstreamRootHeightReference | src/fetch/proto_conversion.rs:70-90 | It resolves to the first n_keep keys (all if fewer) followed by the appended ones. |
| ProtoConversion.FromUpstreamElementHeightReference | src/fetch/proto_conversion.rs:92-109 | It resolves to the path without its last n_remove+1 keys, then the appended keys. |
| ProtoConversion.FromCousinReference | src/fetch/proto_conversion.rs:111-126 | It succeeds exactly on a non-empty path, with the last segment swapped for the swap parent. |
| ProtoConversion.FromRemovedCousinReference | src/fetch/proto_conversion.rs:128-143 | It succeeds exactly on a non-empty path, with the last segment replaced by the swap parents. |
| ProtoConversion.FromSiblingReference | src/fetch/proto_conversion.rs:145-150 | It resolves to the same path with the sibling key. |
| ProtoConversion.TryFrom | src/fetch/proto_conversion.rs:17-54 | A reference resolves to the target its variant defines. Other variants convert field for field, without flags and without touching the arena. |
| ProtoConversion.ValueElement | src/fetch/proto_conversion.rs:29-32 | Items, sum items, subtrees and sumtrees map field for field. |
| ProtoConversion.TryFromReference | src/fetch/proto_conversion.rs:33-51 | Each reference variant resolves to its own target. |
| ProtoConversion.FromUpdate | src/fetch/proto_conversion.rs:160-176 | The conversion fails exactly on a reference whose computed path is empty. Otherwise the node carries the update's child keys, and its feature type and hashes are unset. |
| ProtoConversion.AgreesWithView | src/fetch/proto_conversion.rs:17-150 | For absolute, cousin, removed-cousin and sibling references, and upstream-root-height references that keep no more segments than the path has, both fail on the same inputs. Where they succeed they compute the same key sequence. |
| ProtoConversion.KeepMoreThanPath | src/fetch/proto_conversion.rs:70-90 | Keeping more segments than the path has is an error in the data view but keeps the whole path in the conversion. |
| ProtoConversion.RemoveOneMore | src/fetch/proto_conversion.rs:92-109 | An upstream-from-element-height reference drops one more segment in the conversion than in the data view. |
| ReferenceView.Absolute | src/tree_view/element_view/reference_view.rs:231-237 | An absolute reference resolves to its path and key, or fails with "empty absolute reference". |
| ReferenceView.UpstreamRootHeight | src/tree_view/element_view/reference_view.rs:238-258 | It keeps n_keep segments, appends, and splits off the key, or fails with the too-short or empty-path message. |
| ReferenceView.WithParentAddition | src/tree_view/element_view/reference_view.rs:259-281 | Corrected branch: it also appends the current path's last segment before splitting off the key, with the same errors. |
| ReferenceView.WithParentAdditionAsWritten | src/tree_view/element_view/reference_view.rs:259-281 | As written, the branch returns the corrected result or panics. It panics only when there is a last segment and enough segments to keep. |
| ReferenceView.UpstreamFromElementHeight | src/tree_view/element_view/reference_view.rs:282-307 | It removes n_remove segments, appends, and splits off the key, or fails with the too-short or empty-path message. |
| ReferenceView.Cousin | src/tree_view/element_view/reference_view.rs:308-314 | It swaps the last segment and keeps the key, or fails with "no parent to swap". |
| ReferenceView.SwapLast | src/tree_view/element_view/reference_view.rs:309-313 | The parent's child under the swap key has the current path's keys with the last one replaced. |
| ReferenceView.RemovedCousin | src/tree_view/element_view/reference_view.rs:315-323 | It replaces the last segment by the swap parents and keeps the key, or fails on the empty path. |
| ReferenceView.Sibling | src/tree_view/element_view/reference_view.rs:324 | It keeps the path and takes the sibling key. |
| ReferenceView.GetAbsolutePathKey | src/tree_view/element_view/reference_view.rs:225-326 | Every reference resolves to the interned path and key its meaning designates, or to the error the view reports. |
| ReferenceView.GetAbsolutePathKeyAsWritten | src/tree_view/element_view/reference_view.rs:225-326 | As written, resolution matches the corrected one except for panics, and those come only from the with-parent-addition branch. |
| ReferenceView.WithParentAdditionPanics | src/tree_view/element_view/reference_view.rs:275 | At path [a] with no segments kept and [b] appended, the branch as written panics. The corrected branch returns path [b] and key a. |
| ReferenceView.HexArray | src/tree_view/element_view/reference_view.rs:206-221 | The output is each slice in hex, joined by ", ", inside brackets; no slices give "[]". |
| BytesUtils.Guess | src/bytes_utils.rs:32-39 | One byte is shown as u8, 2, 4 or 8 bytes as a signed integer, 32 bytes as hex, anything else as a string. |
| BytesUtils.Unsigned | src/bytes_utils.rs:284-297 | The two's complement pattern is in range and reads back as the signed value. |
| BytesUtils.BeRoundTrip | src/bytes_utils.rs:284-312 | A value that fits in w bytes survives encoding to big-endian and decoding back. |
| BytesUtils.BeBytesOfValue | src/bytes_utils.rs:284-312 | Bytes survive decoding to a value and encoding back at the same width. |
| BytesUtils.Decimals | src/bytes_utils.rs:259-270 | One decimal string per byte, in order. |
| BytesUtils.BytesAsSlice | src/bytes_utils.rs:259-270 | The slice rendering starts with a bracket. |
| BytesUtils.SliceShowsLeadingBytes | src/bytes_utils.rs:259-270 | The digit runs shown are exactly the bytes up to the cut-off, and `...` is shown exactly when bytes are cut. |
| BytesUtils.BytesAsHexShows | src/bytes_utils.rs:272-282 | A hex rendering of at most 32 characters decodes back to the bytes. A longer one is 26 characters: the hex of the first 6 bytes, `..`, then the hex of the last 6. |
| BytesUtils.BytesAsSignedInt | src/bytes_utils.rs:284-297 | Only 2, 4 and 8 bytes render as a signed integer; any other length gives the width error. |
| BytesUtils.BytesAsUnsignedInt | src/bytes_utils.rs:299-312 | Only 2, 4 and 8 bytes render as an unsigned integer; any other length gives the width error. |
| BytesUtils.BytesByDisplayVariant | src/bytes_utils.rs:320-333 | The text is `empty` exactly for no bytes, whatever the variant. |
| BytesUtils.ExplicitShowsAllBytes | src/bytes_utils.rs:335-347 | The hover text shows every byte, as decimals or as decodable hex. It agrees with the label when nothing is cut off. |
| BytesUtils.NewFromBytes | src/bytes_utils.rs:133-148 | The input text is the bytes' decimals separated by spaces, read as u8, with no error. |
| BytesUtils.GetBytes | src/bytes_utils.rs:158-215 | Empty text is no bytes and no error. Otherwise the error flag is set exactly when parsing fails, and then no bytes are given. |
| BytesUtils.NoBreakSpaceSeparates | src/bytes_utils.rs:165-170 | Decimal bytes may be separated by any Unicode whitespace: `1`, a no-break space, then `2` reads as the bytes 1 and 2 with no error. |
| BytesUtils.ParseDecimals | src/bytes_utils.rs:165-170 | Parsing the decimals of bytes as u8 tokens gives the bytes back. |
| BytesUtils.NewFromBytesRoundTrip | src/bytes_utils.rs:133-215 | Reading back the text `new_from_bytes` wrote gives the same bytes and no error. |
| BytesUtils.NewFromBytesEq | src/bytes_utils.rs:112-116 | Two inputs written from bytes are equal exactly when the bytes are. |
| BytesUtils.ParseSignedRoundTrip | src/bytes_utils.rs:174-203 | A signed integer in range, typed in canonical decimal, is stored as its w-byte two's complement. |
| BytesUtils.ParseUnsignedRoundTrip | src/bytes_utils.rs:174-203 | An unsigned integer in range, typed in canonical decimal, is stored as its w big-endian bytes. |
| BytesUtils.FixedWidthRoundTrip | src/bytes_utils.rs:158-215 | A fixed-width input holding a canonical decimal reads without error as the integer's bytes, which render back as that integer. |
| UiCommon.Guess | src/ui/common.rs:131-140 | One byte is shown as u8, 8 bytes as an integer, 32 as hex, anything else as a string. |
| UiCommon.BytesAsIntRoundTrip | src/ui/common.rs:42-48 | Any 64-bit signed integer stored as eight big-endian bytes renders as its decimal. |
| UiCommon.BytesAsIntError | src/ui/common.rs:42-48 | The integer rendering fails exactly when there are not eight bytes. |
| UiCommon.IntMatchesSignedInt | src/ui/common.rs:42-48 | On eight bytes the older integer rendering is the newer signed one without its label. |
| UiCommon.AgreesWithBytesUtils | src/ui/common.rs:56-75 | With the same variant, the older label agrees with the newer rendering. Only the empty input differs: `[]` against `empty`. |
| UiCommon.GuessesDiffer | src/ui/common.rs:131-140 | The two guesses differ exactly on 2- and 4-byte values: signed integer against string. |

## Left out

- Drawing with egui, the UI state in `RefCell`s (visibility, pages, widths, input points) and everything under src/ui beyond the byte renderings: presentation only.
- Networking and async: `ProofTree::new` fetches the root node from the server. `ProofTree.Layers` models the layer walk before that call, and the fetched update is not modelled.
- Threads, channels and locks (src/fetch.rs, src/bus.rs): concurrency is out of scope.
- Foreign crates are taken as the `BytesUtils.Foreign` parameter: `String::from_utf8_lossy`, integer-encoding varints and the UTF-8 bytes of typed text.
- BytesUtils.ParseSignedRoundTrip: states the round trip only for canonical decimal text (the form `IntToString` writes); `Text.ParseInt` itself also accepts a leading `+` and leading zeros, as `str::parse` does, but no lemma here relates those spellings to their values.
- `TreeData::build_proof_data`, the query builder, profiles and path aliases: not part of the modelled core. `PathCtx.PathText` assumes no profile aliases.
- Widths of `usize` and `u32` are unbounded naturals. Slab ids never run out, and levels and `n_keep` never overflow.
- `BTreeMap` and `HashMap` iteration order: subtrees, elements and nodes are maps, and their keys are sets.
- Element flags: the wire element of this version has none, so `ProtoConversion.TryFrom` always sets `None`.
- `ProofTree.Layers`: states the layer walk's result as a map, not the order of the `VecDeque`.
- Node display guesses in `Tree::insert` (UI state): presentation only.
- `PathDisplay.ForEachDescendant`: returns the ids it hands to the callback instead of calling a closure.
- `Hash` for `Path` hashes the segment bytes. It is consistent with `eq` because equal key sequences mean equal ids (`Interner.Interned`), and hashing itself is not modelled.
- `ptr::eq` of the two contexts in `PathTwo::eq`: the model has one context per arena, so paths compare by head id.
- `Path::id`, `for_visible_mut`, `visible`, `set_visible`: egui identifiers and visibility flags only.
- `ProofTree.FetchAdditionalData`: the source does nothing yet, and the model says so.

## Findings

| source | as written | input that shows it | evidently intended | confidence | as-written member | corrected member |
|---|---|---|---|---|---|---|
| src/tree_view/element_view/reference_view.rs:275 | `child` is called inside `for_last_segment`, which holds a shared borrow of the slab. Allocating a new segment borrows it mutably. | Current path [a]; reference `UpstreamRootHeightWithParentPathAddition` with n_keep 0 and append [b]; [b, a] not yet interned. | Take the last segment's key first, then call `child` outside the borrow: resolve to path [b], key a. | medium, not executed | ReferenceView.WithParentAdditionAsWritten | ReferenceView.WithParentAddition |
| src/model.rs:415-452 | Removing a node that is a cluster root leaves its key among the cluster roots. | A subtree whose only node [1] is a cluster root; remove [1]. `iter_cluster_roots` then expects a node for [1] and panics. | A removed cluster root leaves the cluster roots, keeping them in sync with the nodes, as the `expect` message says. | low, not executed | Model.RemoveAsWritten | Model.Remove |
| src/model.rs:181-185 | `clear_subtree` clears the nodes but not the cluster roots. | The same subtree; clear it. The cluster root [1] remains with no node. | Cluster roots are cleared with the nodes. | low, not executed | Model.ClearSubtreeAsWritten | Model.ClearSubtree |
