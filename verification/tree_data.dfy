/** The newer store of fetched data (src/tree_data.rs): for every path, the
    elements known in that subtree, the subtree's root key and the keys of its
    elements that are subtrees themselves. Paths are handles of the newer path
    context (src/path_ctx.rs). */
module TreeData {
  import opened Common
  import Interner
  import BytesUtils
  import PathCtx
  import Wire

  type Path = PathCtx.Path
  type Arena = PathCtx.Arena
  type Variant = BytesUtils.BytesDisplayVariant

  datatype ElementOrPlaceholder = Element(element: Wire.Element) | Placeholder

  /** How an element is shown: the display variant of each byte field and the
      visibility switches. Fetching a node again never changes these. */
  datatype ViewState = ViewState(
    valueDisplay: Variant,
    flagsDisplay: Variant,
    kvDigestHashDisplay: Variant,
    valueHashDisplay: Variant,
    nodeHashDisplay: Variant,
    showHashes: bool,
    showReferenceDetails: bool,
    merkVisible: bool)

  /** An element of a subtree as the viewer keeps it. */
  datatype ElementView = ElementView(
    key: Key,
    value: ElementOrPlaceholder,
    leftChild: Option<Key>,
    rightChild: Option<Key>,
    kvDigestHash: Option<Wire.CryptoHash>,
    valueHash: Option<Wire.CryptoHash>,
    nodeHash: Option<Wire.CryptoHash>,
    view: ViewState)

  /** `ElementView::new_placeholder`: a known key with nothing fetched for it. */
  function NewPlaceholder(key: Key): (e: ElementView)
    ensures e.key == key && e.value.Placeholder?
    ensures e.leftChild.None? && e.rightChild.None?
    ensures e.kvDigestHash.None? && e.valueHash.None? && e.nodeHash.None?
    ensures e.view.kvDigestHashDisplay == BytesUtils.Hex && e.view.nodeHashDisplay == BytesUtils.Hex
  {
    ElementView(key, Placeholder, None, None, None, None, None,
      ViewState(BytesUtils.U8, BytesUtils.U8, BytesUtils.Hex, BytesUtils.Hex, BytesUtils.Hex, false, false, false))
  }

  /** `ElementView::new`: an item's value is shown in the variant guessed from
      its bytes, anything else in hex; no node hash is known yet. */
  function NewElement(key: Key, value: ElementOrPlaceholder, left: Option<Key>, right: Option<Key>,
                      kvDigestHash: Option<Wire.CryptoHash>, valueHash: Option<Wire.CryptoHash>): (e: ElementView)
    ensures e.key == key && e.value == value && e.leftChild == left && e.rightChild == right
    ensures e.kvDigestHash == kvDigestHash && e.valueHash == valueHash && e.nodeHash.None?
    ensures value.Element? && value.element.Item? ==>
      e.view.valueDisplay == BytesUtils.Guess(value.element.value)
    ensures !(value.Element? && value.element.Item?) ==> e.view.valueDisplay == BytesUtils.Hex
  {
    var valueDisplay :=
      if value.Element? && value.element.Item? then BytesUtils.Guess(value.element.value) else BytesUtils.Hex;
    ElementView(key, value, left, right, kvDigestHash, valueHash, None,
      ViewState(valueDisplay, BytesUtils.U8, BytesUtils.Hex, BytesUtils.Hex, BytesUtils.Hex, false, false, false))
  }

  datatype SubtreeData = SubtreeData(elements: map<Key, ElementView>, rootKey: Option<Key>, subtreeKeys: set<Key>)

  /** `SubtreeData::default()`. */
  function EmptySubtree(): (s: SubtreeData)
    ensures |s.elements| == 0 && s.rootKey.None? && |s.subtreeKeys| == 0
  {
    SubtreeData(map[], None, {})
  }

  /** `SubtreeData::get_root`: the element under the root key, if both exist. */
  function GetRoot(s: SubtreeData): (r: Option<ElementView>)
    ensures r.Some? <==> s.rootKey.Some? && s.rootKey.value in s.elements
    ensures r.Some? ==> r.value == s.elements[s.rootKey.value]
  {
    if s.rootKey.Some? && s.rootKey.value in s.elements then Some(s.elements[s.rootKey.value]) else None
  }

  type Data = map<Path, SubtreeData>

  datatype TreeData = TreeData(ctx: PathCtx.Context, data: Data, merkSelected: Path)

  ghost predicate DataIn(c: Arena, d: Data)
  {
    forall a :: a in d ==> Interner.Has(c, a)
  }

  /** The path context is valid and every path the store mentions is in it. */
  ghost predicate Valid(t: TreeData)
  {
    && PathCtx.Valid(t.ctx)
    && DataIn(t.ctx.arena, t.data)
    && PathCtx.Has(t.ctx, t.merkSelected)
  }

  /** The store moved to a context that extends its own keeps its paths valid. */
  lemma ExtendsKeepsValid(t: TreeData, ctx: PathCtx.Context)
    requires Valid(t) && PathCtx.Valid(ctx) && Interner.Extends(t.ctx.arena, ctx.arena)
    ensures Valid(t.(ctx := ctx))
  {
  }

  /** `TreeData::new`: nothing stored and the root selected. */
  function New(ctx: PathCtx.Context): (t: TreeData)
    requires PathCtx.Valid(ctx)
    ensures Valid(t) && |t.data| == 0
    ensures t.merkSelected == PathCtx.GetRoot(ctx) && Interner.Level(ctx.arena, t.merkSelected) == 0
  {
    TreeData(ctx, map[], PathCtx.GetRoot(ctx))
  }

  /** `TreeData::select_for_merk`. */
  function SelectForMerk(t: TreeData, p: Path): (r: TreeData)
    requires Valid(t) && PathCtx.Has(t.ctx, p)
    ensures Valid(r) && r.merkSelected == p
    ensures r.ctx == t.ctx && r.data == t.data
  {
    t.(merkSelected := p)
  }

  /** `TreeData::get_merk_selected`: the selected path, with its subtree made
      to exist. */
  function GetMerkSelected(t: TreeData): (r: (TreeData, Path))
    requires Valid(t)
    ensures Valid(r.0) && r.1 == t.merkSelected && r.1 in r.0.data
    ensures r.0.ctx == t.ctx && r.0.merkSelected == t.merkSelected
    ensures r.1 in t.data ==> r.0 == t
  {
    (Get(t, t.merkSelected), t.merkSelected)
  }

  /** Selecting a path and then asking for the selection gives that path back,
      with its subtree. */
  lemma SelectedForMerkRoundTrip(t: TreeData, p: Path)
    requires Valid(t) && PathCtx.Has(t.ctx, p)
    ensures var (r, q) := GetMerkSelected(SelectForMerk(t, p));
      q == p && q in r.data && (p in t.data ==> r.data[q] == t.data[p])
  {
  }

  // ---------------------------------------------------------------- get

  /** `entry(key).or_insert_with(new_placeholder)`: a placeholder only where
      the key is missing. */
  function EnsureElement(s: SubtreeData, key: Key): (r: SubtreeData)
    ensures key in r.elements && r.rootKey == s.rootKey && r.subtreeKeys == s.subtreeKeys
    ensures key in s.elements ==> r == s
    ensures key !in s.elements ==> r.elements == s.elements[key := NewPlaceholder(key)]
  {
    if key in s.elements then s else s.(elements := s.elements[key := NewPlaceholder(key)])
  }

  function GetOrDefault(d: Data, p: Path): SubtreeData
  {
    if p in d then d[p] else EmptySubtree()
  }

  /** Entries of `r` that are new or differ from `d` are at paths of the arena
      strictly shallower than `level`. */
  ghost predicate ChangedAbove(c: Arena, d: Data, r: Data, level: nat)
  {
    && (forall a :: a in d ==> a in r)
    && (forall a :: a in r && (a !in d || r[a] != d[a]) ==> Interner.Has(c, a) && Interner.Level(c, a) < level)
  }

  /** No subtree of `d` loses or changes an element, its root key or its
      subtree keys in `r`; every element `r` adds is a placeholder and every
      subtree it adds has no root key and no subtree keys. */
  ghost predicate OnlyPlaceholdersAdded(d: Data, r: Data)
  {
    ElementsKept(d, r) && AddedArePlaceholders(d, r) && HeadersKept(d, r) && NewHeadersEmpty(d, r)
  }

  ghost predicate ElementsKept(d: Data, r: Data)
  {
    && (forall a :: a in d ==> a in r)
    && (forall a, k :: a in d && k in d[a].elements ==>
          k in r[a].elements && r[a].elements[k] == d[a].elements[k])
  }

  ghost predicate AddedArePlaceholders(d: Data, r: Data)
  {
    forall a, k :: a in r && k in r[a].elements && !(a in d && k in d[a].elements) ==>
      r[a].elements[k] == NewPlaceholder(k)
  }

  ghost predicate HeadersKept(d: Data, r: Data)
  {
    forall a :: a in d ==> a in r && r[a].rootKey == d[a].rootKey && r[a].subtreeKeys == d[a].subtreeKeys
  }

  ghost predicate NewHeadersEmpty(d: Data, r: Data)
  {
    forall a :: a in r && a !in d ==> r[a].rootKey.None? && r[a].subtreeKeys == {}
  }

  lemma ElementsKeptTransitive(d1: Data, d2: Data, d3: Data)
    requires ElementsKept(d1, d2) && ElementsKept(d2, d3)
    ensures ElementsKept(d1, d3)
  {
  }

  lemma AddedArePlaceholdersTransitive(d1: Data, d2: Data, d3: Data)
    requires ElementsKept(d1, d2) && ElementsKept(d2, d3)
    requires AddedArePlaceholders(d1, d2) && AddedArePlaceholders(d2, d3)
    ensures AddedArePlaceholders(d1, d3)
  {
  }

  /** Every proper ancestor of `p` has a subtree holding an element under the
      key of the next segment of `p`. */
  ghost predicate AncestorsPopulated(c: Arena, r: Data, p: Path)
    requires Interner.Valid(c) && Interner.Has(c, p)
  {
    forall k :: 1 <= k <= Interner.Level(c, p) ==>
      && Interner.Up(c, p, k) in r
      && Interner.ToVec(c, p)[Interner.Level(c, p) - k] in r[Interner.Up(c, p, k)].elements
  }

  /** The loop of `get_create_missing_parents`, walking up from `p`. */
  function Chain(c: Arena, d: Data, p: Path): (r: Data)
    requires Interner.Valid(c) && DataIn(c, d) && Interner.Has(c, p)
    ensures DataIn(c, r)
    ensures ChangedAbove(c, d, r, Interner.Level(c, p))
    ensures OnlyPlaceholdersAdded(d, r)
    ensures AncestorsPopulated(c, r, p)
    decreases Interner.Level(c, p)
  {
    match Interner.ParentWithKey(c, p)
    case None => d
    case Some((parent, key)) =>
      var d1 := d[parent := EnsureElement(GetOrDefault(d, parent), key)];
      var r := Chain(c, d1, parent);
      ChainStep(c, d, p, parent, key, d1, r);
      r
  }

  lemma ChainStep(c: Arena, d: Data, p: Path, parent: Path, key: Key, d1: Data, r: Data)
    requires Interner.Valid(c) && DataIn(c, d) && Interner.Has(c, p)
    requires Interner.ParentWithKey(c, p) == Some((parent, key))
    requires d1 == d[parent := EnsureElement(GetOrDefault(d, parent), key)]
    requires DataIn(c, r)
    requires ChangedAbove(c, d1, r, Interner.Level(c, parent))
    requires OnlyPlaceholdersAdded(d1, r)
    requires AncestorsPopulated(c, r, parent)
    ensures ChangedAbove(c, d, r, Interner.Level(c, p))
    ensures OnlyPlaceholdersAdded(d, r)
    ensures AncestorsPopulated(c, r, p)
  {
    assert Interner.ParentOk(c, p.value);
    ChainChangedAbove(c, d, p, parent, key, d1, r);
    ChainPlaceholders(d, parent, key, d1, r);
    assert parent in r && key in r[parent].elements by {
      assert ElementsKept(d1, r);
    }
    ChainPopulated(c, p, parent, key, r);
  }

  lemma ChainChangedAbove(c: Arena, d: Data, p: Path, parent: Path, key: Key, d1: Data, r: Data)
    requires Interner.Valid(c) && Interner.Has(c, p) && Interner.Has(c, parent)
    requires Interner.Level(c, parent) < Interner.Level(c, p)
    requires d1 == d[parent := EnsureElement(GetOrDefault(d, parent), key)]
    requires ChangedAbove(c, d1, r, Interner.Level(c, parent))
    ensures ChangedAbove(c, d, r, Interner.Level(c, p))
  {
  }

  lemma ChainPlaceholders(d: Data, parent: Path, key: Key, d1: Data, r: Data)
    requires d1 == d[parent := EnsureElement(GetOrDefault(d, parent), key)]
    requires OnlyPlaceholdersAdded(d1, r)
    ensures OnlyPlaceholdersAdded(d, r)
  {
    assert ElementsKept(d, d1);
    ElementsKeptTransitive(d, d1, r);
    assert AddedArePlaceholders(d, d1);
    AddedArePlaceholdersTransitive(d, d1, r);
  }

  lemma ChainPopulated(c: Arena, p: Path, parent: Path, key: Key, r: Data)
    requires Interner.Valid(c) && Interner.Has(c, p) && p.Some?
    requires parent == c.slab[p.value].parent && key == c.slab[p.value].bytes
    requires Interner.ParentOk(c, p.value)
    requires AncestorsPopulated(c, r, parent)
    requires parent in r && key in r[parent].elements
    ensures AncestorsPopulated(c, r, p)
  {
    var level := Interner.Level(c, p);
    assert Interner.ToVec(c, p) == Interner.ToVec(c, parent) + [key];
    forall k | 1 <= k <= level
      ensures Interner.Up(c, p, k) in r
      ensures Interner.ToVec(c, p)[level - k] in r[Interner.Up(c, p, k)].elements
    {
      assert Interner.Up(c, p, k) == Interner.Up(c, parent, k - 1);
      if k > 1 {
        assert Interner.ToVec(c, p)[level - k] == Interner.ToVec(c, parent)[level - 1 - (k - 1)];
      }
    }
  }

  /** `TreeData::get_create_missing_parents`: every proper ancestor of `p`
      exists and holds an element for the next segment (a placeholder only
      where none was), and the subtree at `p` exists, untouched if it was
      there. */
  function GetCreateMissingParents(t: TreeData, p: Path): (r: TreeData)
    requires Valid(t) && PathCtx.Has(t.ctx, p)
    ensures Valid(r) && r.ctx == t.ctx && r.merkSelected == t.merkSelected
    ensures p in r.data && r.data[p] == GetOrDefault(t.data, p)
    ensures AncestorsPopulated(t.ctx.arena, r.data, p)
    ensures OnlyPlaceholdersAdded(t.data, r.data)
    ensures forall a :: a in r.data && a != p && (a !in t.data || r.data[a] != t.data[a]) ==>
      Interner.Level(t.ctx.arena, a) < Interner.Level(t.ctx.arena, p)
  {
    var c := t.ctx.arena;
    var d := Chain(c, t.data, p);
    assert GetOrDefault(d, p) == GetOrDefault(t.data, p);
    if p in d then t.(data := d)
    else
      AddEmptySubtree(c, t.data, d, p);
      t.(data := d[p := EmptySubtree()])
  }

  /** Adding an empty subtree at a new path keeps what the chain established. */
  lemma AddEmptySubtree(c: Arena, d0: Data, d: Data, p: Path)
    requires Interner.Valid(c) && Interner.Has(c, p) && p !in d
    requires OnlyPlaceholdersAdded(d0, d) && AncestorsPopulated(c, d, p)
    ensures OnlyPlaceholdersAdded(d0, d[p := EmptySubtree()])
    ensures AncestorsPopulated(c, d[p := EmptySubtree()], p)
  {
    var d2 := d[p := EmptySubtree()];
    assert ElementsKept(d, d2);
    ElementsKeptTransitive(d0, d, d2);
    assert AddedArePlaceholders(d, d2);
    AddedArePlaceholdersTransitive(d0, d, d2);
  }

  /** `TreeData::get`: the subtree at `p`, created with its missing ancestors
      if it was not there; an existing subtree is returned as it is and
      nothing else changes. */
  function Get(t: TreeData, p: Path): (r: TreeData)
    requires Valid(t) && PathCtx.Has(t.ctx, p)
    ensures Valid(r) && r.ctx == t.ctx && r.merkSelected == t.merkSelected
    ensures p in r.data && r.data[p] == GetOrDefault(t.data, p)
    ensures p in t.data ==> r == t
    ensures p !in t.data ==> AncestorsPopulated(t.ctx.arena, r.data, p)
    ensures OnlyPlaceholdersAdded(t.data, r.data)
  {
    if p in t.data then t else GetCreateMissingParents(t, p)
  }

  // ---------------------------------------------------------------- node updates

  /** The element under a fetched node's key: a new element for a vacant key;
      for an occupied one the value, children and hashes are overwritten and
      the node hash and how it is shown are kept. */
  function Upsert(elements: map<Key, ElementView>, u: Wire.NodeUpdate): (r: map<Key, ElementView>)
    ensures u.key in r && Fetched(r[u.key], u)
    ensures u.key !in elements ==> r[u.key] == NewElement(u.key, Element(u.element), u.leftChild, u.rightChild,
      Some(u.kvDigestHash), Some(u.valueHash))
    ensures u.key in elements ==>
      r[u.key].nodeHash == elements[u.key].nodeHash && r[u.key].view == elements[u.key].view
    ensures forall k :: k in elements && k != u.key ==> k in r && r[k] == elements[k]
    ensures r.Keys == elements.Keys + {u.key}
  {
    if u.key in elements then
      var e := elements[u.key];
      elements[u.key := e.(value := Element(u.element), leftChild := u.leftChild, rightChild := u.rightChild,
                           kvDigestHash := Some(u.kvDigestHash), valueHash := Some(u.valueHash))]
    else
      elements[u.key := NewElement(u.key, Element(u.element), u.leftChild, u.rightChild,
                                   Some(u.kvDigestHash), Some(u.valueHash))]
  }

  /** The element carries what the update fetched: its element, its children's
      keys and its two hashes. */
  predicate Fetched(e: ElementView, u: Wire.NodeUpdate)
  {
    && e.value == Element(u.element)
    && e.leftChild == u.leftChild && e.rightChild == u.rightChild
    && e.kvDigestHash == Some(u.kvDigestHash) && e.valueHash == Some(u.valueHash)
  }

  /** Records the hash a parent knows a child by: only when both the hash and
      the child's key are given, on a placeholder if the child is missing. */
  function SetNodeHash(elements: map<Key, ElementView>, hash: Option<Wire.CryptoHash>, child: Option<Key>)
    : (r: map<Key, ElementView>)
    ensures hash.None? || child.None? ==> r == elements
    ensures hash.Some? && child.Some? ==>
      && child.value in r
      && r[child.value].nodeHash == hash
      && r[child.value] == (if child.value in elements then elements[child.value] else NewPlaceholder(child.value))
                             .(nodeHash := hash)
    ensures forall k :: k in elements ==> k in r && r[k] == elements[k].(nodeHash := r[k].nodeHash)
    ensures forall k :: k in elements && child != Some(k) ==> r[k] == elements[k]
    ensures forall k :: k in r && k !in elements ==> child == Some(k)
  {
    if hash.Some? && child.Some? then
      var k := child.value;
      var e := if k in elements then elements[k] else NewPlaceholder(k);
      elements[k := e.(nodeHash := hash)]
    else elements
  }

  /** The element changes of a node update within its own subtree. */
  function UpdateElements(elements: map<Key, ElementView>, u: Wire.NodeUpdate): (r: map<Key, ElementView>)
    ensures u.key in r && Fetched(r[u.key], u)
    ensures u.rightMerkHash.Some? && u.rightChild.Some? ==>
      u.rightChild.value in r && r[u.rightChild.value].nodeHash == u.rightMerkHash
    ensures u.leftMerkHash.Some? && u.leftChild.Some? && !(u.rightMerkHash.Some? && u.rightChild == u.leftChild) ==>
      u.leftChild.value in r && r[u.leftChild.value].nodeHash == u.leftMerkHash
    ensures forall k :: k in elements && k != u.key ==> k in r && r[k] == elements[k].(nodeHash := r[k].nodeHash)
    ensures forall k :: k in elements && k != u.key && u.leftChild != Some(k) && u.rightChild != Some(k) ==>
      r[k] == elements[k]
    ensures forall k :: k in r && k !in elements && k != u.key ==>
      r[k] == NewPlaceholder(k).(nodeHash := r[k].nodeHash) && (u.leftChild == Some(k) || u.rightChild == Some(k))
  {
    UpdateKeyFetched(elements, u);
    UpdateHashes(elements, u);
    UpdateFrame(elements, u);
    UpdateFrameNew(elements, u);
    SetNodeHash(SetNodeHash(Upsert(elements, u), u.leftMerkHash, u.leftChild), u.rightMerkHash, u.rightChild)
  }

  lemma UpdateKeyFetched(elements: map<Key, ElementView>, u: Wire.NodeUpdate)
    ensures var r := SetNodeHash(SetNodeHash(Upsert(elements, u), u.leftMerkHash, u.leftChild), u.rightMerkHash, u.rightChild);
      u.key in r && Fetched(r[u.key], u)
  {
  }

  lemma UpdateHashes(elements: map<Key, ElementView>, u: Wire.NodeUpdate)
    ensures var r := SetNodeHash(SetNodeHash(Upsert(elements, u), u.leftMerkHash, u.leftChild), u.rightMerkHash, u.rightChild);
      && (u.rightMerkHash.Some? && u.rightChild.Some? ==>
            u.rightChild.value in r && r[u.rightChild.value].nodeHash == u.rightMerkHash)
      && (u.leftMerkHash.Some? && u.leftChild.Some? && !(u.rightMerkHash.Some? && u.rightChild == u.leftChild) ==>
            u.leftChild.value in r && r[u.leftChild.value].nodeHash == u.leftMerkHash)
  {
  }

  lemma UpdateFrame(elements: map<Key, ElementView>, u: Wire.NodeUpdate)
    ensures var r := SetNodeHash(SetNodeHash(Upsert(elements, u), u.leftMerkHash, u.leftChild), u.rightMerkHash, u.rightChild);
      && (forall k :: k in elements && k != u.key ==> k in r && r[k] == elements[k].(nodeHash := r[k].nodeHash))
      && (forall k :: k in elements && k != u.key && u.leftChild != Some(k) && u.rightChild != Some(k) ==>
            r[k] == elements[k])
  {
  }

  lemma UpdateFrameNew(elements: map<Key, ElementView>, u: Wire.NodeUpdate)
    ensures var r := SetNodeHash(SetNodeHash(Upsert(elements, u), u.leftMerkHash, u.leftChild), u.rightMerkHash, u.rightChild);
      forall k :: k in r && k !in elements && k != u.key ==>
        r[k] == NewPlaceholder(k).(nodeHash := r[k].nodeHash) && (u.leftChild == Some(k) || u.rightChild == Some(k))
  {
  }

  /** The store moved to the context holding the child path of `sp` under
      `key`. */
  function ChildInStore(t: TreeData, sp: Path, key: Key): (r: (TreeData, Path))
    requires Valid(t) && PathCtx.Has(t.ctx, sp)
    ensures Valid(r.0) && Interner.Extends(t.ctx.arena, r.0.ctx.arena) && PathCtx.Has(r.0.ctx, sp)
    ensures r.0.data == t.data && r.0.merkSelected == t.merkSelected && r.0.ctx.selected == t.ctx.selected
    ensures (r.0.ctx, r.1) == PathCtx.Child(t.ctx, sp, key) && PathCtx.Has(r.0.ctx, r.1)
    ensures Interner.ToVec(r.0.ctx.arena, r.1) == Interner.ToVec(t.ctx.arena, sp) + [key] && r.1 != sp
  {
    var (ctx2, cp) := PathCtx.Child(t.ctx, sp, key);
    Interner.ChildPath(t.ctx.arena, sp, key, BytesUtils.Guess);
    Interner.ToVecExtends(t.ctx.arena, ctx2.arena, sp);
    ExtendsKeepsValid(t, ctx2);
    (t.(ctx := ctx2), cp)
  }

  /** The subtree at `p` exists and has this root key. */
  function SetSubtreeRoot(t: TreeData, p: Path, rootKey: Option<Key>): (r: TreeData)
    requires Valid(t) && PathCtx.Has(t.ctx, p)
    ensures Valid(r) && r.ctx == t.ctx && r.merkSelected == t.merkSelected
    ensures p in r.data && r.data[p].rootKey == rootKey
    ensures ElementsKept(t.data, r.data) && AddedArePlaceholders(t.data, r.data)
    ensures forall a :: a in t.data ==> r.data[a].subtreeKeys == t.data[a].subtreeKeys
    ensures forall a :: a in t.data && a != p ==> r.data[a].rootKey == t.data[a].rootKey
  {
    var t2 := Get(t, p);
    var t3 := t2.(data := t2.data[p := t2.data[p].(rootKey := rootKey)]);
    assert ElementsKept(t2.data, t3.data);
    ElementsKeptTransitive(t.data, t2.data, t3.data);
    assert AddedArePlaceholders(t2.data, t3.data);
    AddedArePlaceholdersTransitive(t.data, t2.data, t3.data);
    t3
  }

  /** The parent subtree lists the key among its subtree keys. */
  function AddSubtreeKey(t: TreeData, sp: Path, key: Key): (r: TreeData)
    requires Valid(t) && PathCtx.Has(t.ctx, sp)
    ensures Valid(r) && r.ctx == t.ctx && r.merkSelected == t.merkSelected
    ensures sp in r.data && r.data[sp].subtreeKeys == GetOrDefault(t.data, sp).subtreeKeys + {key}
    ensures ElementsKept(t.data, r.data) && AddedArePlaceholders(t.data, r.data)
    ensures forall a :: a in t.data ==> r.data[a].rootKey == t.data[a].rootKey
    ensures forall a :: a in t.data && a != sp ==> r.data[a].subtreeKeys == t.data[a].subtreeKeys
  {
    var t4 := Get(t, sp);
    var t5 := t4.(data := t4.data[sp := t4.data[sp].(subtreeKeys := t4.data[sp].subtreeKeys + {key})]);
    assert ElementsKept(t4.data, t5.data);
    ElementsKeptTransitive(t.data, t4.data, t5.data);
    assert AddedArePlaceholders(t4.data, t5.data);
    AddedArePlaceholdersTransitive(t.data, t4.data, t5.data);
    t5
  }

  /** Everything a node update does before touching the elements of its own
      subtree: the subtree's path is interned; for a Subtree or Sumtree element
      the child subtree gets the element's root key and the key joins the
      subtree keys; then the subtree is made to exist. */
  function PrepareUpdate(t: TreeData, u: Wire.NodeUpdate): (r: (TreeData, Path))
    requires Valid(t)
    ensures Valid(r.0) && Interner.Extends(t.ctx.arena, r.0.ctx.arena)
    ensures r.0.merkSelected == t.merkSelected && r.0.ctx.selected == t.ctx.selected
    ensures r.1 == PathCtx.AddPath(t.ctx, u.path).1 && PathCtx.Has(r.0.ctx, r.1) && r.1 in r.0.data
    ensures Interner.ToVec(r.0.ctx.arena, r.1) == u.path
    ensures ElementsKept(t.data, r.0.data) && AddedArePlaceholders(t.data, r.0.data)
    ensures Wire.IsTree(u.element) ==>
      && u.key in r.0.data[r.1].subtreeKeys
      && ChildSubtreeRooted(r.0, u)
    ensures forall a :: a in t.data && a != r.1 ==> r.0.data[a].subtreeKeys == t.data[a].subtreeKeys
    ensures !Wire.IsTree(u.element) ==> forall a :: a in t.data ==> r.0.data[a] .subtreeKeys == t.data[a].subtreeKeys
    ensures forall a :: a in t.data && (!Wire.IsTree(u.element) || Interner.Level(t.ctx.arena, a) <= |u.path|) ==>
      r.0.data[a].rootKey == t.data[a].rootKey
  {
    var (ctx1, sp) := PathCtx.AddPath(t.ctx, u.path);
    ExtendsKeepsValid(t, ctx1);
    var t1 := t.(ctx := ctx1);
    if Wire.IsTree(u.element) then
      var t4 := LinkChildSubtree(t1, sp, u);
      Interner.ToVecExtends(ctx1.arena, t4.ctx.arena, sp);
      var t5 := Get(t4, sp);
      ElementsKeptTransitive(t.data, t4.data, t5.data);
      AddedArePlaceholdersTransitive(t.data, t4.data, t5.data);
      assert ChildSubtreeRooted(t5, u) by {
        assert HeadersKept(t4.data, t5.data);
      }
      (t5, sp)
    else
      var t5 := Get(t1, sp);
      (t5, sp)
  }

  /** A Subtree or Sumtree element: the child subtree exists with the
      element's root key, `None` included, and the key joins the subtree keys
      of the update's subtree. */
  function LinkChildSubtree(t: TreeData, sp: Path, u: Wire.NodeUpdate): (r: TreeData)
    requires Valid(t) && PathCtx.Has(t.ctx, sp) && Wire.IsTree(u.element)
    requires Interner.ToVec(t.ctx.arena, sp) == u.path
    ensures Valid(r) && Interner.Extends(t.ctx.arena, r.ctx.arena)
    ensures r.merkSelected == t.merkSelected && r.ctx.selected == t.ctx.selected
    ensures PathCtx.Has(r.ctx, sp) && sp in r.data && u.key in r.data[sp].subtreeKeys
    ensures ChildSubtreeRooted(r, u)
    ensures ElementsKept(t.data, r.data) && AddedArePlaceholders(t.data, r.data)
    ensures forall a :: a in t.data && a != sp ==> r.data[a].subtreeKeys == t.data[a].subtreeKeys
    ensures forall a :: a in t.data && Interner.Level(t.ctx.arena, a) <= |u.path| ==>
      r.data[a].rootKey == t.data[a].rootKey
  {
    var (t2, cp) := ChildInStore(t, sp, u.key);
    Interner.ToVecExtends(t.ctx.arena, t2.ctx.arena, sp);
    var t3 := SetSubtreeRoot(t2, cp, u.element.rootKey);
    var t4 := AddSubtreeKey(t3, sp, u.key);
    ElementsKeptTransitive(t.data, t3.data, t4.data);
    AddedArePlaceholdersTransitive(t.data, t3.data, t4.data);
    ChildRootedHere(t4, u, sp, cp);
    PrepareLevels(t, t2, u, cp);
    t4
  }

  /** The child subtree of the update's Subtree or Sumtree element, at the
      update's path extended by its key, has the element's root key. */
  ghost predicate ChildSubtreeRooted(t: TreeData, u: Wire.NodeUpdate)
    requires Valid(t) && Wire.IsTree(u.element)
  {
    forall q :: PathCtx.Has(t.ctx, q) && Interner.ToVec(t.ctx.arena, q) == u.path + [u.key] ==>
      q in t.data && t.data[q].rootKey == u.element.rootKey
  }

  lemma ChildRootedHere(t: TreeData, u: Wire.NodeUpdate, sp: Path, cp: Path)
    requires Valid(t) && Wire.IsTree(u.element) && PathCtx.Has(t.ctx, cp)
    requires Interner.ToVec(t.ctx.arena, cp) == u.path + [u.key]
    requires cp in t.data && t.data[cp].rootKey == u.element.rootKey
    ensures ChildSubtreeRooted(t, u)
  {
    forall q | PathCtx.Has(t.ctx, q) && Interner.ToVec(t.ctx.arena, q) == u.path + [u.key]
      ensures q == cp
    {
      Interner.Interned(t.ctx.arena, q, cp);
    }
  }

  lemma PrepareLevels(t: TreeData, t2: TreeData, u: Wire.NodeUpdate, cp: Path)
    requires Valid(t) && Valid(t2) && Interner.Extends(t.ctx.arena, t2.ctx.arena) && PathCtx.Has(t2.ctx, cp)
    requires Interner.ToVec(t2.ctx.arena, cp) == u.path + [u.key]
    ensures forall a :: a in t.data && Interner.Level(t.ctx.arena, a) <= |u.path| ==> a != cp
  {
  }

  /** `TreeData::apply_node_update`: the fetched node's element, children and
      hashes land under its key in the subtree at its path (display and node
      hash kept if the key was known); each child given with a hash gets that
      node hash, as a placeholder if unknown; a Subtree or Sumtree element
      also roots its child subtree. Elsewhere, existing elements are kept and
      only placeholders are added. */
  function ApplyNodeUpdate(t: TreeData, u: Wire.NodeUpdate): (r: TreeData)
    requires Valid(t)
    ensures Valid(r) && Interner.Extends(t.ctx.arena, r.ctx.arena)
    ensures r.merkSelected == t.merkSelected && r.ctx.selected == t.ctx.selected
    ensures var sp := PathCtx.AddPath(t.ctx, u.path).1;
      && PathCtx.Has(r.ctx, sp) && Interner.ToVec(r.ctx.arena, sp) == u.path && sp in r.data
      && u.key in r.data[sp].elements && Fetched(r.data[sp].elements[u.key], u)
      && (Wire.IsTree(u.element) ==> u.key in r.data[sp].subtreeKeys)
      && ChildHashesSet(r.data[sp].elements, u)
    ensures Wire.IsTree(u.element) ==> ChildSubtreeRooted(r, u)
    ensures forall a :: a in t.data ==> a in r.data
    ensures var sp := PathCtx.AddPath(t.ctx, u.path).1;
      forall a, k :: a in t.data && a != sp && k in t.data[a].elements ==>
        k in r.data[a].elements && r.data[a].elements[k] == t.data[a].elements[k]
    ensures var sp := PathCtx.AddPath(t.ctx, u.path).1;
      forall k :: sp in t.data && k in t.data[sp].elements && k != u.key ==>
        k in r.data[sp].elements && r.data[sp].elements[k] == t.data[sp].elements[k].(nodeHash := r.data[sp].elements[k].nodeHash)
    ensures forall a :: a in t.data && (!Wire.IsTree(u.element) || Interner.Level(t.ctx.arena, a) <= |u.path|) ==>
      r.data[a].rootKey == t.data[a].rootKey
  {
    var (t1, sp) := PrepareUpdate(t, u);
    var sub := t1.data[sp];
    var elements := UpdateElements(sub.elements, u);
    var r := t1.(data := t1.data[sp := sub.(elements := elements)]);
    ApplyFrame(t, t1, sp, u, r);
    WrittenValid(t1, sp, u, r);
    if Wire.IsTree(u.element) then
      RootedKept(t1, u, r);
      r
    else r
  }

  lemma WrittenValid(t1: TreeData, sp: Path, u: Wire.NodeUpdate, r: TreeData)
    requires Valid(t1) && sp in t1.data
    requires r == t1.(data := t1.data[sp := t1.data[sp].(elements := UpdateElements(t1.data[sp].elements, u))])
    ensures Valid(r) && HeadersKept(t1.data, r.data) && r.data.Keys == t1.data.Keys
  {
  }

  lemma RootedKept(t1: TreeData, u: Wire.NodeUpdate, r: TreeData)
    requires Valid(t1) && Valid(r) && Wire.IsTree(u.element) && ChildSubtreeRooted(t1, u)
    requires r.ctx == t1.ctx && HeadersKept(t1.data, r.data)
    ensures ChildSubtreeRooted(r, u)
  {
  }

  /** What writing the updated elements back does to the rest of the store. */
  lemma ApplyFrame(t: TreeData, t1: TreeData, sp: Path, u: Wire.NodeUpdate, r: TreeData)
    requires sp in t1.data && ElementsKept(t.data, t1.data)
    requires r == t1.(data := t1.data[sp := t1.data[sp].(elements := UpdateElements(t1.data[sp].elements, u))])
    ensures forall a :: a in t.data ==> a in r.data
    ensures forall a :: a in t1.data ==> r.data[a].rootKey == t1.data[a].rootKey && r.data[a].subtreeKeys == t1.data[a].subtreeKeys
    ensures forall a, k :: a in t.data && a != sp && k in t.data[a].elements ==>
      k in r.data[a].elements && r.data[a].elements[k] == t.data[a].elements[k]
    ensures forall k :: sp in t.data && k in t.data[sp].elements && k != u.key ==>
      k in r.data[sp].elements && r.data[sp].elements[k] == t.data[sp].elements[k].(nodeHash := r.data[sp].elements[k].nodeHash)
  {
  }

  /** Each child the update gives together with a hash carries that hash as its
      node hash (the right one winning if both name the same key). */
  ghost predicate ChildHashesSet(elements: map<Key, ElementView>, u: Wire.NodeUpdate)
  {
    && (u.rightMerkHash.Some? && u.rightChild.Some? ==>
          u.rightChild.value in elements && elements[u.rightChild.value].nodeHash == u.rightMerkHash)
    && (u.leftMerkHash.Some? && u.leftChild.Some? && !(u.rightMerkHash.Some? && u.rightChild == u.leftChild) ==>
          u.leftChild.value in elements && elements[u.leftChild.value].nodeHash == u.leftMerkHash)
  }

  /** `TreeData::apply_root_node_update`: the root subtree's root key becomes
      the update's key, then the update is applied. */
  function ApplyRootNodeUpdate(t: TreeData, u: Wire.NodeUpdate): (r: TreeData)
    requires Valid(t)
    ensures Valid(r) && Interner.Extends(t.ctx.arena, r.ctx.arena)
    ensures PathCtx.GetRoot(t.ctx) in r.data && r.data[PathCtx.GetRoot(t.ctx)].rootKey == Some(u.key)
    ensures var sp := PathCtx.AddPath(t.ctx, u.path).1;
      && PathCtx.Has(r.ctx, sp) && Interner.ToVec(r.ctx.arena, sp) == u.path && sp in r.data
      && u.key in r.data[sp].elements && Fetched(r.data[sp].elements[u.key], u)
  {
    var root := PathCtx.GetRoot(t.ctx);
    var t1 := SetSubtreeRoot(t, root, Some(u.key));
    ApplyNodeUpdate(t1, u)
  }
}
