/** Converting a node update received from GroveDB into the tree model's node
    (src/fetch/proto_conversion.rs). A reference arrives relative to the path
    and key of the element holding it; it is resolved here on plain key
    sequences and the resulting path is then interned. */
module ProtoConversion {
  import opened Common
  import Interner
  import PathDisplay
  import Model
  import Wire
  import ReferenceView

  /** The element as this wire version sends it: no flags, and no
      with-parent-path-addition reference. */
  datatype ProtoElement =
    | Subtree(rootKey: Option<Key>)
    | Sumtree(rootKey: Option<Key>, sum: int)
    | Item(value: Bytes)
    | SumItem(sumValue: int)
    | AbsolutePathReference(path: seq<Key>)
    | UpstreamRootHeightReference(nKeep: nat, pathAppend: seq<Key>)
    | UpstreamFromElementHeightReference(nRemove: nat, pathAppend: seq<Key>)
    | CousinReference(swapParent: Key)
    | RemovedCousinReference(swapParents: seq<Key>)
    | SiblingReference(siblingKey: Key)

  predicate IsReference(e: ProtoElement)
  {
    !(e.Subtree? || e.Sumtree? || e.Item? || e.SumItem?)
  }

  /** The fields of a node update the conversion reads. */
  datatype ProtoNodeUpdate = ProtoNodeUpdate(
    leftChild: Option<Key>,
    rightChild: Option<Key>,
    path: seq<Key>,
    key: Key,
    element: ProtoElement)

  /** "Computed reference has no key". */
  datatype ReferenceWithoutKey = ReferenceWithoutKey

  datatype BadProtoElement = EmptyPathReference(cause: ReferenceWithoutKey) | NoneElement

  /** An element of the model with the arena its reference path (if any) was
      interned in. */
  datatype Converted = Converted(arena: Model.Arena, element: Model.Element)

  // ---------------------------------------------------------------- meaning

  function Min(a: nat, b: nat): nat
  {
    if a <= b then a else b
  }

  /** The full key sequence (path, then key) a reference held at `path`/`key`
      designates, empty when there is none: upstream references keep
      `n_keep` leading segments, or drop `n_remove + 1` trailing ones, as far
      as there are any, and then append; cousins swap the last segment of a
      non-empty path; a sibling keeps the path and changes the key. */
  function Target(e: ProtoElement, path: seq<Key>, key: Key): seq<Key>
    requires IsReference(e)
  {
    match e
    case AbsolutePathReference(p) => p
    case UpstreamRootHeightReference(nKeep, append) => path[..Min(nKeep, |path|)] + append
    case UpstreamFromElementHeightReference(nRemove, append) => path[..|path| - Min(nRemove + 1, |path|)] + append
    case CousinReference(swapParent) => CousinTarget(path, key, [swapParent])
    case RemovedCousinReference(swapParents) => CousinTarget(path, key, swapParents)
    case SiblingReference(siblingKey) => path + [siblingKey]
  }

  /** A cousin replaces the last segment by `swap`; with no segment there is
      no target. */
  function CousinTarget(path: seq<Key>, key: Key, swap: seq<Key>): seq<Key>
  {
    if |path| == 0 then [] else path[..|path| - 1] + swap + [key]
  }

  /** `r` resolves the reference to `target`: it fails exactly when there is
      no key, and otherwise holds a reference whose interned path followed by
      its key is the target, in an extension of the arena. */
  ghost predicate Resolves(c: Model.Arena, target: seq<Key>, r: Result<Converted, ReferenceWithoutKey>)
  {
    && (r.Ok? <==> |target| > 0)
    && (r.Ok? ==>
          && Interner.Valid(r.value.arena)
          && Interner.Extends(c, r.value.arena)
          && r.value.element.Reference?
          && r.value.element.flags.None?
          && Interner.Has(r.value.arena, r.value.element.path)
          && Interner.ToVec(r.value.arena, r.value.element.path) + [r.value.element.key] == target)
  }

  // ---------------------------------------------------------------- sequence steps

  /** `Vec::pop`: the last segment and the rest. */
  function Pop(path: seq<Key>): (r: Option<(seq<Key>, Key)>)
    ensures r.Some? <==> |path| > 0
    ensures r.Some? ==> r.value.0 + [r.value.1] == path
  {
    if |path| == 0 then None
    else
      assert path[..|path| - 1] + [path[|path| - 1]] == path;
      Some((path[..|path| - 1], path[|path| - 1]))
  }

  /** What is left of an iterator over `s` after `nth_back(n)`: it takes items
      off the back until it has taken `n + 1` or run out. */
  function NthBackRest(s: seq<Key>, n: nat): (r: seq<Key>)
    ensures |r| == |s| - Min(n + 1, |s|)
    ensures r == s[..|r|]
    decreases |s|
  {
    if |s| == 0 then []
    else if n == 0 then s[..|s| - 1]
    else NthBackRest(s[..|s| - 1], n - 1)
  }

  /** `take(n)` on an iterator over `s`. */
  function Take(s: seq<Key>, n: nat): (r: seq<Key>)
    ensures |r| == Min(n, |s|)
    ensures r == s[..|r|]
  {
    if n < |s| then s[..n] else s
  }

  /** `Element::Reference` with the path interned by `add_path`. */
  function MakeReference(c: Model.Arena, path: seq<Key>, key: Key): (r: Converted)
    requires Interner.Valid(c)
    ensures Interner.Valid(r.arena) && Interner.Extends(c, r.arena)
    ensures r.element.Reference? && r.element.flags.None? && r.element.key == key
    ensures Interner.Has(r.arena, r.element.path) && Interner.ToVec(r.arena, r.element.path) == path
  {
    var (c2, p) := PathDisplay.AddPath(c, path);
    Converted(c2, Model.Reference(p, key, None))
  }

  /** Pop the key off a computed sequence and intern the rest. */
  function PopReference(c: Model.Arena, full: seq<Key>): (r: Result<Converted, ReferenceWithoutKey>)
    requires Interner.Valid(c)
    ensures Resolves(c, full, r)
  {
    match Pop(full)
    case None => Err(ReferenceWithoutKey)
    case Some((path, key)) => Ok(MakeReference(c, path, key))
  }

  // ---------------------------------------------------------------- the six reference conversions

  /** `from_absolute_path_reference`. */
  function FromAbsolutePathReference(c: Model.Arena, path: seq<Key>): (r: Result<Converted, ReferenceWithoutKey>)
    requires Interner.Valid(c)
    ensures Resolves(c, path, r)
  {
    PopReference(c, path)
  }

  /** `from_upstream_root_height_reference`: a path shorter than `n_keep` is
      kept whole rather than refused. */
  function FromUpstreamRootHeightReference(c: Model.Arena, path: seq<Key>, nKeep: nat, append: seq<Key>): (r: Result<Converted, ReferenceWithoutKey>)
    requires Interner.Valid(c)
    ensures Resolves(c, path[..Min(nKeep, |path|)] + append, r)
  {
    PopReference(c, Take(path, nKeep) + append)
  }

  /** `from_upstream_element_height_reference`: `nth_back(n_remove)` drops
      `n_remove + 1` trailing segments. */
  function FromUpstreamElementHeightReference(c: Model.Arena, path: seq<Key>, nRemove: nat, append: seq<Key>): (r: Result<Converted, ReferenceWithoutKey>)
    requires Interner.Valid(c)
    ensures Resolves(c, path[..|path| - Min(nRemove + 1, |path|)] + append, r)
  {
    var rest := NthBackRest(path, nRemove);
    assert rest == path[..|path| - Min(nRemove + 1, |path|)];
    PopReference(c, rest + append)
  }

  /** `from_cousin_reference`: the last segment is overwritten. */
  function FromCousinReference(c: Model.Arena, path: seq<Key>, key: Key, swapParent: Key): (r: Result<Converted, ReferenceWithoutKey>)
    requires Interner.Valid(c)
    ensures r.Ok? <==> |path| > 0
    ensures Resolves(c, CousinTarget(path, key, [swapParent]), r)
  {
    if |path| == 0 then Err(ReferenceWithoutKey)
    else
      var swapped := path[|path| - 1 := swapParent];
      assert swapped == path[..|path| - 1] + [swapParent];
      Ok(MakeReference(c, swapped, key))
  }

  /** `from_removed_cousin_reference`: the last segment is popped and the
      swap segments are appended. */
  function FromRemovedCousinReference(c: Model.Arena, path: seq<Key>, key: Key, swapParents: seq<Key>): (r: Result<Converted, ReferenceWithoutKey>)
    requires Interner.Valid(c)
    ensures r.Ok? <==> |path| > 0
    ensures Resolves(c, CousinTarget(path, key, swapParents), r)
  {
    match Pop(path)
    case None => Err(ReferenceWithoutKey)
    case Some((rest, _)) => Ok(MakeReference(c, rest + swapParents, key))
  }

  /** `from_sibling_reference`: never fails. */
  function FromSiblingReference(c: Model.Arena, path: seq<Key>, siblingKey: Key): (r: Converted)
    requires Interner.Valid(c)
    ensures Resolves(c, path + [siblingKey], Ok(r))
  {
    MakeReference(c, path, siblingKey)
  }

  // ---------------------------------------------------------------- element and node

  /** `Element::try_from(ElementCtx)`: values and subtree links map field for
      field with no flags and leave the arena alone; a reference resolves to
      its target or fails when the target has no key. */
  function TryFrom(c: Model.Arena, e: ProtoElement, path: seq<Key>, key: Key): (r: Result<Converted, ReferenceWithoutKey>)
    requires Interner.Valid(c)
    ensures IsReference(e) ==> Resolves(c, Target(e, path, key), r)
    ensures !IsReference(e) ==> r.Ok? && r.value.arena == c
    ensures e.Subtree? ==> r.value.element == Model.Subtree(e.rootKey, None)
    ensures e.Sumtree? ==> r.value.element == Model.Sumtree(e.rootKey, e.sum, None)
    ensures e.Item? ==> r.value.element == Model.Item(e.value, None)
    ensures e.SumItem? ==> r.value.element == Model.SumItem(e.sumValue, None)
  {
    if IsReference(e) then TryFromReference(c, e, path, key)
    else Ok(Converted(c, ValueElement(e)))
  }

  /** The non-reference variants map field for field, with no flags. */
  function ValueElement(e: ProtoElement): (r: Model.Element)
    requires !IsReference(e)
    ensures e.Subtree? ==> r == Model.Subtree(e.rootKey, None)
    ensures e.Sumtree? ==> r == Model.Sumtree(e.rootKey, e.sum, None)
    ensures e.Item? ==> r == Model.Item(e.value, None)
    ensures e.SumItem? ==> r == Model.SumItem(e.sumValue, None)
  {
    match e
    case Subtree(rootKey) => Model.Subtree(rootKey, None)
    case Sumtree(rootKey, sum) => Model.Sumtree(rootKey, sum, None)
    case Item(value) => Model.Item(value, None)
    case SumItem(value) => Model.SumItem(value, None)
  }

  /** The reference variants, each by its own conversion. */
  function TryFromReference(c: Model.Arena, e: ProtoElement, path: seq<Key>, key: Key): (r: Result<Converted, ReferenceWithoutKey>)
    requires Interner.Valid(c) && IsReference(e)
    ensures Resolves(c, Target(e, path, key), r)
  {
    match e
    case AbsolutePathReference(p) => FromAbsolutePathReference(c, p)
    case UpstreamRootHeightReference(nKeep, append) => FromUpstreamRootHeightReference(c, path, nKeep, append)
    case UpstreamFromElementHeightReference(nRemove, append) => FromUpstreamElementHeightReference(c, path, nRemove, append)
    case CousinReference(swapParent) => FromCousinReference(c, path, key, swapParent)
    case RemovedCousinReference(swapParents) => FromRemovedCousinReference(c, path, key, swapParents)
    case SiblingReference(siblingKey) => Ok(FromSiblingReference(c, path, siblingKey))
  }

  /** `from_update`: the element is converted with the update's own path and
      key, the child keys are copied and everything else is left unset; a
      reference without a key fails the whole update. */
  function FromUpdate(c: Model.Arena, u: ProtoNodeUpdate): (r: Result<(Model.Arena, Model.Node), BadProtoElement>)
    requires Interner.Valid(c)
    ensures r.Ok? <==> !IsReference(u.element) || |Target(u.element, u.path, u.key)| > 0
    ensures r.Err? ==> r.error == EmptyPathReference(ReferenceWithoutKey)
    ensures r.Ok? ==> Interner.Valid(r.value.0) && Interner.Extends(c, r.value.0)
    ensures r.Ok? ==>
      && r.value.1.left == u.leftChild && r.value.1.right == u.rightChild
      && r.value.1.featureType.None? && r.value.1.valueHash.None? && r.value.1.kvDigestHash.None?
      && r.value.1.element == TryFrom(c, u.element, u.path, u.key).value.element
  {
    match TryFrom(c, u.element, u.path, u.key)
    case Err(e) => Err(EmptyPathReference(e))
    case Ok(Converted(c2, element)) => Ok((c2, Model.Node(element, u.leftChild, u.rightChild, None, None, None)))
  }

  // ---------------------------------------------------------------- against the data view

  /** Where both resolve, the conversion and the data view's resolution agree
      on absolute, upstream-root-height (keeping no more segments than there
      are), cousin, removed-cousin and sibling references, and both fail on
      the same inputs. */
  lemma AgreesWithView(path: seq<Key>, key: Key, e: ProtoElement, reference: Wire.Reference)
    requires
      || (e.AbsolutePathReference? && reference == Wire.AbsolutePathReference(e.path))
      || (e.UpstreamRootHeightReference? && reference == Wire.UpstreamRootHeightReference(e.nKeep, e.pathAppend) && e.nKeep <= |path|)
      || (e.CousinReference? && reference == Wire.CousinReference(e.swapParent))
      || (e.RemovedCousinReference? && reference == Wire.RemovedCousinReference(e.swapParents))
      || (e.SiblingReference? && reference == Wire.SiblingReference(e.siblingKey))
    ensures |Target(e, path, key)| > 0 <==> ReferenceView.Designated(path, key, reference).Ok?
    ensures |Target(e, path, key)| > 0 ==> ReferenceView.Designated(path, key, reference).value == Target(e, path, key)
  {
  }

  /** An upstream-root-height reference keeping more segments than the path
      has: the data view refuses it, while the conversion keeps the whole path
      and appends. */
  lemma KeepMoreThanPath(path: seq<Key>, key: Key, nKeep: nat, append: seq<Key>)
    requires nKeep > |path|
    ensures ReferenceView.Designated(path, key, Wire.UpstreamRootHeightReference(nKeep, append)) == Err(ReferenceView.TooShortToKeep)
    ensures Target(UpstreamRootHeightReference(nKeep, append), path, key) == path + append
  {
    assert path[..|path|] == path;
  }

  /** Upstream-from-element-height references: the conversion drops one more
      trailing segment than the data view does, so a conversion with
      `n_remove` lands where the view lands with `n_remove + 1`; with the same
      `n_remove` they differ whenever fewer than all segments are removed, and
      removing more segments than there are is an error only in the view. */
  lemma RemoveOneMore(path: seq<Key>, key: Key, nRemove: nat, append: seq<Key>)
    ensures var target := Target(UpstreamFromElementHeightReference(nRemove, append), path, key);
      var view := ReferenceView.Designated(path, key, Wire.UpstreamFromElementHeightReference(nRemove + 1, append));
      nRemove < |path| ==> (|target| > 0 <==> view.Ok?) && (view.Ok? ==> view.value == target)
    ensures var target := Target(UpstreamFromElementHeightReference(nRemove, append), path, key);
      var view := ReferenceView.Designated(path, key, Wire.UpstreamFromElementHeightReference(nRemove, append));
      nRemove < |path| ==> view.Ok? && |view.value| == |target| + 1
    ensures var view := ReferenceView.Designated(path, key, Wire.UpstreamFromElementHeightReference(nRemove, append));
      nRemove > |path| ==> view == Err(ReferenceView.TooShortToRemove)
    ensures nRemove >= |path| ==> Target(UpstreamFromElementHeightReference(nRemove, append), path, key) == append
  {
  }
}
