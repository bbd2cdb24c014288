/** Resolving a reference element shown in the data view into the path and key
    it points to, on interned paths, and listing path segments in hex
    (src/tree_view/element_view/reference_view.rs). */
module ReferenceView {
  import opened Common
  import Text
  import Interner
  import BytesUtils
  import PathCtx
  import Wire

  type Path = Interner.Path

  const EmptyAbsolute: string := "empty absolute reference"
  const TooShortToKeep: string := "current path is to short to keep enough segments"
  const EmptyComputed: string := "the computed absolute path is empty"
  const TooShortToRemove: string := "current path is to short to remove enough segments"
  const NoParentToSwap: string := "no parent to swap"
  const EmptyPathSwap: string := "can't swap parent of an empty path"

  // ---------------------------------------------------------------- meaning

  /** The last key of a path as a sequence of at most one key. */
  function LastOf(s: seq<Key>): (r: seq<Key>)
    ensures |s| == 0 ==> r == []
    ensures |s| > 0 ==> r == [s[|s| - 1]]
  {
    if |s| == 0 then [] else [s[|s| - 1]]
  }

  function NonEmpty(full: seq<Key>): Result<seq<Key>, string>
  {
    if |full| == 0 then Err(EmptyComputed) else Ok(full)
  }

  /** What a reference held at `current`/`key` designates: the keys of the
      referenced element's path followed by its key, or the error the view
      reports. Upstream references keep `n_keep` leading segments or drop
      `n_remove` trailing ones and then append; the with-parent-addition form
      also appends the current path's last segment; cousins swap the current
      path's last segment; a sibling keeps the path and changes the key. */
  function Designated(current: seq<Key>, key: Key, reference: Wire.Reference): Result<seq<Key>, string>
  {
    match reference
    case AbsolutePathReference(path) =>
      if |path| == 0 then Err(EmptyAbsolute) else Ok(path)
    case UpstreamRootHeightReference(nKeep, append) =>
      if nKeep > |current| then Err(TooShortToKeep) else NonEmpty(current[..nKeep] + append)
    case UpstreamRootHeightWithParentPathAdditionReference(nKeep, append) =>
      if nKeep > |current| then Err(TooShortToKeep) else NonEmpty(current[..nKeep] + append + LastOf(current))
    case UpstreamFromElementHeightReference(nRemove, append) =>
      if nRemove > |current| then Err(TooShortToRemove) else NonEmpty(current[..|current| - nRemove] + append)
    case CousinReference(swapParent) =>
      if |current| == 0 then Err(NoParentToSwap) else Ok(current[..|current| - 1] + [swapParent, key])
    case RemovedCousinReference(swapParents) =>
      if |current| == 0 then Err(EmptyPathSwap) else Ok(current[..|current| - 1] + swapParents + [key])
    case SiblingReference(siblingKey) =>
      Ok(current + [siblingKey])
  }

  /** A resolved reference: the context after interning, the path and the key. */
  datatype Resolved = Resolved(ctx: PathCtx.Context, path: Path, key: Key)

  /** `r` is what `Designated` says: the same error, or an interned path in an
      extension of the context whose keys followed by the key are the
      designated sequence. */
  ghost predicate Agrees(ctx: PathCtx.Context, current: Path, key: Key, reference: Wire.Reference,
                         r: Result<Resolved, string>)
    requires PathCtx.Valid(ctx) && PathCtx.Has(ctx, current)
  {
    var d := Designated(Interner.ToVec(ctx.arena, current), key, reference);
    && r.Ok? == d.Ok?
    && (r.Err? ==> r.error == d.error)
    && (r.Ok? ==>
          && PathCtx.Valid(r.value.ctx)
          && Interner.Extends(ctx.arena, r.value.ctx.arena)
          && r.value.ctx.selected == ctx.selected
          && PathCtx.Has(r.value.ctx, r.value.path)
          && Interner.ToVec(r.value.ctx.arena, r.value.path) + [r.value.key] == d.value)
  }

  // ---------------------------------------------------------------- path steps

  /** `child` applied for each key in turn (the `for segment in ...` loops). */
  function AddFrom(ctx: PathCtx.Context, p: Path, keys: seq<Key>): (r: (PathCtx.Context, Path))
    requires PathCtx.Valid(ctx) && PathCtx.Has(ctx, p)
    ensures PathCtx.Valid(r.0) && r.0.selected == ctx.selected
    ensures Interner.Extends(ctx.arena, r.0.arena) && PathCtx.Has(r.0, r.1)
    ensures Interner.ToVec(r.0.arena, r.1) == Interner.ToVec(ctx.arena, p) + keys
  {
    var (a, q) := Interner.AddFrom(ctx.arena, p, keys, BytesUtils.Guess);
    (PathCtx.Context(a, ctx.selected), q)
  }

  /** `parent_with_key`, failing on the root with "the computed absolute path
      is empty". */
  function SplitLast(ctx: PathCtx.Context, q: Path): (r: Result<Resolved, string>)
    requires PathCtx.Valid(ctx) && PathCtx.Has(ctx, q)
    ensures r.Ok? <==> |Interner.ToVec(ctx.arena, q)| > 0
    ensures r.Err? ==> r.error == EmptyComputed
    ensures r.Ok? ==> r.value.ctx == ctx && PathCtx.Has(ctx, r.value.path)
    ensures r.Ok? ==> Interner.ToVec(ctx.arena, r.value.path) + [r.value.key] == Interner.ToVec(ctx.arena, q)
  {
    match Interner.ParentWithKey(ctx.arena, q)
    case None => Err(EmptyComputed)
    case Some((parent, k)) => Ok(Resolved(ctx, parent, k))
  }

  /** The parent of a path has its keys but the last, which is the key of the
      path's own segment. */
  lemma ParentKeys(ctx: PathCtx.Context, p: Path)
    requires PathCtx.Valid(ctx) && PathCtx.Has(ctx, p) && p.Some?
    ensures var v := Interner.ToVec(ctx.arena, p);
      && Interner.Parent(ctx.arena, p).Some?
      && |v| > 0
      && Interner.ToVec(ctx.arena, Interner.Parent(ctx.arena, p).value) == v[..|v| - 1]
      && ctx.arena.slab[p.value].bytes == v[|v| - 1]
  {
    assert Interner.ParentOk(ctx.arena, p.value);
    var v := Interner.ToVec(ctx.arena, p);
    assert v == Interner.ToVec(ctx.arena, ctx.arena.slab[p.value].parent) + [ctx.arena.slab[p.value].bytes];
  }

  /** The path `current` keeps after `to_remove` calls of `parent`. */
  function Shrink(ctx: PathCtx.Context, current: Path, toRemove: nat): (p: Path)
    requires PathCtx.Valid(ctx) && PathCtx.Has(ctx, current)
    requires toRemove <= |Interner.ToVec(ctx.arena, current)|
    ensures PathCtx.Has(ctx, p)
    ensures var v := Interner.ToVec(ctx.arena, current); Interner.ToVec(ctx.arena, p) == v[..|v| - toRemove]
  {
    Interner.Up(ctx.arena, current, toRemove)
  }

  // ---------------------------------------------------------------- one branch per reference kind

  function Absolute(ctx: PathCtx.Context, current: Path, key: Key, reference: Wire.Reference): (r: Result<Resolved, string>)
    requires PathCtx.Valid(ctx) && PathCtx.Has(ctx, current) && reference.AbsolutePathReference?
    ensures Agrees(ctx, current, key, reference, r)
  {
    var path := reference.path;
    if |path| == 0 then Err(EmptyAbsolute)
    else Ok(InternLast(ctx, path))
  }

  /** Intern all segments but the last and keep the last as the key. */
  function InternLast(ctx: PathCtx.Context, path: seq<Key>): (r: Resolved)
    requires PathCtx.Valid(ctx) && |path| > 0
    ensures PathCtx.Valid(r.ctx) && r.ctx.selected == ctx.selected
    ensures Interner.Extends(ctx.arena, r.ctx.arena) && PathCtx.Has(r.ctx, r.path)
    ensures Interner.ToVec(r.ctx.arena, r.path) + [r.key] == path
  {
    var (c2, p) := PathCtx.AddPath(ctx, path[..|path| - 1]);
    assert path[..|path| - 1] + [path[|path| - 1]] == path;
    Resolved(c2, p, path[|path| - 1])
  }

  /** Keep `n_keep` leading segments (an error if there are fewer) and append. */
  function KeepAndAppend(ctx: PathCtx.Context, current: Path, nKeep: nat, append: seq<Key>): (r: Result<(PathCtx.Context, Path), string>)
    requires PathCtx.Valid(ctx) && PathCtx.Has(ctx, current)
    ensures var v := Interner.ToVec(ctx.arena, current);
      && (r.Ok? <==> nKeep <= |v|)
      && (r.Err? ==> r.error == TooShortToKeep)
      && (r.Ok? ==>
            && PathCtx.Valid(r.value.0) && r.value.0.selected == ctx.selected
            && Interner.Extends(ctx.arena, r.value.0.arena) && PathCtx.Has(r.value.0, r.value.1)
            && Interner.ToVec(r.value.0.arena, r.value.1) == v[..nKeep] + append)
  {
    var level := Interner.Level(ctx.arena, current);
    if nKeep > level then Err(TooShortToKeep)
    else
      var shrinked := Shrink(ctx, current, level - nKeep);
      Ok(AddFrom(ctx, shrinked, append))
  }

  function UpstreamRootHeight(ctx: PathCtx.Context, current: Path, key: Key, reference: Wire.Reference): (r: Result<Resolved, string>)
    requires PathCtx.Valid(ctx) && PathCtx.Has(ctx, current) && reference.UpstreamRootHeightReference?
    ensures Agrees(ctx, current, key, reference, r)
  {
    match KeepAndAppend(ctx, current, reference.nKeep, reference.pathAppend)
    case Err(e) => Err(e)
    case Ok((c2, q)) => SplitLast(c2, q)
  }

  /** The child of `q` named by the last segment of `current`. */
  function ChildOfLast(ctx: PathCtx.Context, current: Path, c2: PathCtx.Context, q: Path): (r: (PathCtx.Context, Path))
    requires PathCtx.Valid(ctx) && PathCtx.Has(ctx, current) && current.Some?
    requires PathCtx.Valid(c2) && PathCtx.Has(c2, q)
    ensures PathCtx.Valid(r.0) && r.0.selected == c2.selected
    ensures Interner.Extends(c2.arena, r.0.arena) && PathCtx.Has(r.0, r.1)
    ensures Interner.ToVec(r.0.arena, r.1) == Interner.ToVec(c2.arena, q) + LastOf(Interner.ToVec(ctx.arena, current))
  {
    ParentKeys(ctx, current);
    var last := ctx.arena.slab[current.value].bytes;
    Interner.ChildPath(c2.arena, q, last, BytesUtils.Guess);
    PathCtx.Child(c2, q, last)
  }

  /** The with-parent-path-addition branch with the current path's last segment
      appended as intended: the segment's key is read first and the child is
      taken afterwards. */
  function WithParentAddition(ctx: PathCtx.Context, current: Path, key: Key, reference: Wire.Reference): (r: Result<Resolved, string>)
    requires PathCtx.Valid(ctx) && PathCtx.Has(ctx, current)
    requires reference.UpstreamRootHeightWithParentPathAdditionReference?
    ensures Agrees(ctx, current, key, reference, r)
  {
    match KeepAndAppend(ctx, current, reference.nKeep, reference.pathAppend)
    case Err(e) => Err(e)
    case Ok((c2, q)) =>
      if current.None? then
        assert Interner.ToVec(c2.arena, q) + LastOf(Interner.ToVec(ctx.arena, current)) == Interner.ToVec(c2.arena, q);
        SplitLast(c2, q)
      else
        var (c3, q3) := ChildOfLast(ctx, current, c2, q);
        Interner.ExtendsTransitive(ctx.arena, c2.arena, c3.arena);
        SplitLast(c3, q3)
  }

  /** What running a branch can end in: a value, or a panic because a
      `RefCell` was mutably borrowed while already borrowed. */
  datatype Outcome = Returned(result: Result<Resolved, string>) | BorrowPanic

  /** The with-parent-path-addition branch as written: the child is taken
      inside `for_last_segment`, which holds a shared borrow of the segment
      slab while the closure runs. Taking a child that is already interned
      only reads the slab; interning a new one borrows it mutably and panics.
      The root path has no last segment, so nothing is appended. */
  function WithParentAdditionAsWritten(ctx: PathCtx.Context, current: Path, key: Key, reference: Wire.Reference): (r: Outcome)
    requires PathCtx.Valid(ctx) && PathCtx.Has(ctx, current)
    requires reference.UpstreamRootHeightWithParentPathAdditionReference?
    ensures r.Returned? ==> r.result == WithParentAddition(ctx, current, key, reference)
    ensures r.BorrowPanic? ==> current.Some? && reference.nKeep <= Interner.Level(ctx.arena, current)
    ensures current.None? ==> r.Returned?
  {
    match KeepAndAppend(ctx, current, reference.nKeep, reference.pathAppend)
    case Err(e) => Returned(Err(e))
    case Ok((c2, q)) =>
      if current.None? then Returned(SplitLast(c2, q))
      else
        if Interner.FindChild(c2.arena, q, ctx.arena.slab[current.value].bytes).None? then BorrowPanic
        else
          var (c3, q3) := ChildOfLast(ctx, current, c2, q);
          Returned(SplitLast(c3, q3))
  }

  function UpstreamFromElementHeight(ctx: PathCtx.Context, current: Path, key: Key, reference: Wire.Reference): (r: Result<Resolved, string>)
    requires PathCtx.Valid(ctx) && PathCtx.Has(ctx, current) && reference.UpstreamFromElementHeightReference?
    ensures Agrees(ctx, current, key, reference, r)
  {
    var level := Interner.Level(ctx.arena, current);
    if reference.nRemove > level then Err(TooShortToRemove)
    else
      var shrinked := Shrink(ctx, current, reference.nRemove);
      var (c2, q) := AddFrom(ctx, shrinked, reference.pathAppend);
      SplitLast(c2, q)
  }

  function Cousin(ctx: PathCtx.Context, current: Path, key: Key, reference: Wire.Reference): (r: Result<Resolved, string>)
    requires PathCtx.Valid(ctx) && PathCtx.Has(ctx, current) && reference.CousinReference?
    ensures Agrees(ctx, current, key, reference, r)
  {
    match Interner.Parent(ctx.arena, current)
    case None => Err(NoParentToSwap)
    case Some(parent) =>
      var (c2, q) := SwapLast(ctx, current, reference.swapParent);
      var v := Interner.ToVec(ctx.arena, current);
      assert v[..|v| - 1] + [reference.swapParent] + [key] == v[..|v| - 1] + [reference.swapParent, key];
      Ok(Resolved(c2, q, key))
  }

  /** The current path with its last segment replaced by `swap`. */
  function SwapLast(ctx: PathCtx.Context, current: Path, swap: Key): (r: (PathCtx.Context, Path))
    requires PathCtx.Valid(ctx) && PathCtx.Has(ctx, current) && current.Some?
    ensures PathCtx.Valid(r.0) && r.0.selected == ctx.selected
    ensures Interner.Extends(ctx.arena, r.0.arena) && PathCtx.Has(r.0, r.1)
    ensures var v := Interner.ToVec(ctx.arena, current);
      |v| > 0 && Interner.ToVec(r.0.arena, r.1) == v[..|v| - 1] + [swap]
  {
    ParentKeys(ctx, current);
    var parent := Interner.Parent(ctx.arena, current).value;
    Interner.ChildPath(ctx.arena, parent, swap, BytesUtils.Guess);
    PathCtx.Child(ctx, parent, swap)
  }

  function RemovedCousin(ctx: PathCtx.Context, current: Path, key: Key, reference: Wire.Reference): (r: Result<Resolved, string>)
    requires PathCtx.Valid(ctx) && PathCtx.Has(ctx, current) && reference.RemovedCousinReference?
    ensures Agrees(ctx, current, key, reference, r)
  {
    match Interner.Parent(ctx.arena, current)
    case None => Err(EmptyPathSwap)
    case Some(parent) =>
      ParentKeys(ctx, current);
      var (c2, q) := AddFrom(ctx, parent, reference.swapParents);
      Ok(Resolved(c2, q, key))
  }

  function Sibling(ctx: PathCtx.Context, current: Path, key: Key, reference: Wire.Reference): (r: Result<Resolved, string>)
    requires PathCtx.Valid(ctx) && PathCtx.Has(ctx, current) && reference.SiblingReference?
    ensures Agrees(ctx, current, key, reference, r)
  {
    Ok(Resolved(ctx, current, reference.siblingKey))
  }

  // ---------------------------------------------------------------- get_absolute_path_key

  /** `get_absolute_path_key`, with the with-parent-path-addition branch as
      intended: every reference resolves to what `Designated` says. */
  function GetAbsolutePathKey(ctx: PathCtx.Context, current: Path, key: Key, reference: Wire.Reference): (r: Result<Resolved, string>)
    requires PathCtx.Valid(ctx) && PathCtx.Has(ctx, current)
    ensures Agrees(ctx, current, key, reference, r)
  {
    match reference
    case AbsolutePathReference(_) => Absolute(ctx, current, key, reference)
    case UpstreamRootHeightReference(_, _) => UpstreamRootHeight(ctx, current, key, reference)
    case UpstreamRootHeightWithParentPathAdditionReference(_, _) => WithParentAddition(ctx, current, key, reference)
    case UpstreamFromElementHeightReference(_, _) => UpstreamFromElementHeight(ctx, current, key, reference)
    case CousinReference(_) => Cousin(ctx, current, key, reference)
    case RemovedCousinReference(_) => RemovedCousin(ctx, current, key, reference)
    case SiblingReference(_) => Sibling(ctx, current, key, reference)
  }

  /** `get_absolute_path_key` as written: only the with-parent-path-addition
      branch can panic, and whenever it returns it agrees with the intended
      resolution. */
  function GetAbsolutePathKeyAsWritten(ctx: PathCtx.Context, current: Path, key: Key, reference: Wire.Reference): (r: Outcome)
    requires PathCtx.Valid(ctx) && PathCtx.Has(ctx, current)
    ensures r.Returned? ==> r.result == GetAbsolutePathKey(ctx, current, key, reference)
    ensures r.BorrowPanic? ==> reference.UpstreamRootHeightWithParentPathAdditionReference? && current.Some?
  {
    if reference.UpstreamRootHeightWithParentPathAdditionReference? then
      WithParentAdditionAsWritten(ctx, current, key, reference)
    else Returned(GetAbsolutePathKey(ctx, current, key, reference))
  }

  /** A reference held at path `[a]` that keeps no segments and appends `[b]`
      designates path `[b]` and key `a`. The path `[b, a]` has not been interned
      yet, so the branch as written panics, while the intended resolution
      returns path `[b]` and key `a`. */
  lemma WithParentAdditionPanics(a: Key, b: Key)
    ensures var (ctx, current) := PathCtx.AddPath(PathCtx.New(), [a]);
      var reference := Wire.UpstreamRootHeightWithParentPathAdditionReference(0, [b]);
      && WithParentAdditionAsWritten(ctx, current, a, reference).BorrowPanic?
      && var r := WithParentAddition(ctx, current, a, reference);
         r.Ok? && Interner.ToVec(r.value.ctx.arena, r.value.path) == [b] && r.value.key == a
  {
    var (ctx, current) := PathCtx.AddPath(PathCtx.New(), [a]);
    var reference := Wire.UpstreamRootHeightWithParentPathAdditionReference(0, [b]);
    AddOneToFlat(PathCtx.New().arena, a);
    assert current.Some? by {
      assert Interner.ToVec(ctx.arena, current) == [a];
    }
    ParentKeys(ctx, current);
    var shrinked := Shrink(ctx, current, 1);
    assert shrinked == None by {
      if shrinked.Some? {
        ParentKeys(ctx, shrinked);
      }
    }
    AddOneToFlat(ctx.arena, b);
    var (c2, q) := AddFrom(ctx, shrinked, [b]);
    assert KeepAndAppend(ctx, current, 0, [b]) == Ok((c2, q));
    assert Interner.FindChild(c2.arena, q, ctx.arena.slab[current.value].bytes).None?;
    PanicResolution(ctx, current, a, reference, b);
  }

  lemma PanicResolution(ctx: PathCtx.Context, current: Path, a: Key, reference: Wire.Reference, b: Key)
    requires PathCtx.Valid(ctx) && PathCtx.Has(ctx, current)
    requires Interner.ToVec(ctx.arena, current) == [a]
    requires reference == Wire.UpstreamRootHeightWithParentPathAdditionReference(0, [b])
    ensures var r := WithParentAddition(ctx, current, a, reference);
      r.Ok? && Interner.ToVec(r.value.ctx.arena, r.value.path) == [b] && r.value.key == a
  {
    var r := WithParentAddition(ctx, current, a, reference);
    DesignatesParentThenLast(a, b);
    assert r.Ok?;
    SnocPair(Interner.ToVec(r.value.ctx.arena, r.value.path), r.value.key, b, a);
  }

  lemma DesignatesParentThenLast(a: Key, b: Key)
    ensures Designated([a], a, Wire.UpstreamRootHeightWithParentPathAdditionReference(0, [b])) == Ok([b, a])
  {
    assert [a][..0] + [b] + LastOf([a]) == [b, a];
  }

  lemma SnocPair<T>(v: seq<T>, k: T, x: T, y: T)
    requires v + [k] == [x, y]
    ensures v == [x] && k == y
  {
    assert v == (v + [k])[..1];
  }

  /** An arena whose segments all hang off the root. */
  ghost predicate Flat(c: PathCtx.Arena)
  {
    forall i :: 0 <= i < |c.slab| ==> c.slab[i].parent.None?
  }

  lemma AddOneToFlat(c: PathCtx.Arena, k: Key)
    requires Interner.Valid(c) && Flat(c)
    ensures var (c2, q) := Interner.AddFrom(c, None, [k], BytesUtils.Guess); Flat(c2) && q.Some?
  {
    var (c1, q1) := Interner.Child(c, None, k, BytesUtils.Guess);
    assert [k][1..] == [];
    assert Interner.AddFrom(c, None, [k], BytesUtils.Guess) == Interner.AddFrom(c1, q1, [], BytesUtils.Guess);
  }

  // ---------------------------------------------------------------- hex_array

  /** `hex_array`: "[]" for no slices, otherwise each slice in lowercase hex,
      separated by ", ", between brackets. */
  method HexArray(slices: seq<Bytes>) returns (s: string)
    ensures s == "[" + Join(MapSeq(slices, Text.Hex), ", ") + "]"
  {
    if |slices| == 0 {
      return "[]";
    }
    var hexes := MapSeq(slices, Text.Hex);
    var n := |hexes| - 1;
    var body := "";
    var i := 0;
    while i < n
      invariant 0 <= i <= n
      invariant body == Terminated(hexes[..i], ", ")
    {
      TerminatedStep(hexes, i, ", ");
      body := body + hexes[i] + ", ";
      i := i + 1;
    }
    s := "[" + (body + hexes[n]) + "]";
    TerminatedThenLastIsJoin(hexes, ", ");
  }

  lemma TerminatedStep(xs: seq<string>, i: nat, sep: string)
    requires i < |xs|
    ensures Terminated(xs[..i + 1], sep) == Terminated(xs[..i], sep) + xs[i] + sep
  {
    assert xs[..i + 1] == xs[..i] + [xs[i]];
    TerminatedSnoc(xs[..i], xs[i], sep);
  }

  lemma {:induction false} TerminatedSnoc(xs: seq<string>, x: string, sep: string)
    ensures Terminated(xs + [x], sep) == Terminated(xs, sep) + x + sep
    decreases |xs|
  {
    if |xs| == 0 {
      assert [x][1..] == [];
    } else {
      assert (xs + [x])[1..] == xs[1..] + [x];
      TerminatedSnoc(xs[1..], x, sep);
    }
  }
}
