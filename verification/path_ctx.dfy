/** The newer path context (src/path_ctx.rs): the interner with the newer byte
    display variants, plus the path selected for a query. Paths are compared by
    head id and ordered by depth first, then head id. */
module PathCtx {
  import opened Common
  import Interner
  import BytesUtils

  type Arena = Interner.Ctx<BytesUtils.BytesDisplayVariant>
  type Path = Interner.Path

  datatype SelectedForQuery = SelectedRoot | SelectedSubtree(id: Interner.Id)

  datatype Context = Context(arena: Arena, selected: Option<SelectedForQuery>)

  ghost predicate Valid(ctx: Context)
  {
    && Interner.Valid(ctx.arena)
    && (ctx.selected.Some? && ctx.selected.value.SelectedSubtree? ==>
          ctx.selected.value.id < |ctx.arena.slab|)
  }

  predicate Has(ctx: Context, p: Path)
  {
    Interner.Has(ctx.arena, p)
  }

  /** `PathCtx::new`: no segments and nothing selected. */
  function New(): (ctx: Context)
    ensures Valid(ctx) && ctx.selected.None? && |ctx.arena.slab| == 0
  {
    Context(Interner.New(), None)
  }

  /** `PathCtx::get_root`: the root path, at level 0 with no keys. */
  function GetRoot(ctx: Context): (p: Path)
    requires Valid(ctx)
    ensures Has(ctx, p) && Interner.Level(ctx.arena, p) == 0
    ensures Interner.ToVec(ctx.arena, p) == []
    ensures Interner.ParentWithKey(ctx.arena, p).None? && Interner.Parent(ctx.arena, p).None?
  {
    None
  }

  /** `Path::child`, with a new segment's display guessed from its key. */
  function Child(ctx: Context, p: Path, key: Key): (r: (Context, Path))
    requires Valid(ctx) && Has(ctx, p)
    ensures Valid(r.0) && r.0.selected == ctx.selected
    ensures Interner.Extends(ctx.arena, r.0.arena) && Has(r.0, r.1)
    ensures r.1.Some? && r.0.arena.slab[r.1.value].display ==
      (if r.1.value < |ctx.arena.slab| then ctx.arena.slab[r.1.value].display
       else BytesUtils.Guess(key))
  {
    var (a, q) := Interner.Child(ctx.arena, p, key, BytesUtils.Guess);
    (Context(a, ctx.selected), q)
  }

  /** `PathCtx::add_path` and `PathCtx::add_iter`: the path with these keys,
      interned segment by segment from the root. */
  function AddPath(ctx: Context, keys: seq<Key>): (r: (Context, Path))
    requires Valid(ctx)
    ensures Valid(r.0) && r.0.selected == ctx.selected
    ensures Interner.Extends(ctx.arena, r.0.arena) && Has(r.0, r.1)
    ensures Interner.ToVec(r.0.arena, r.1) == keys
    ensures Interner.Level(r.0.arena, r.1) == |keys|
  {
    var (a, q) := Interner.AddPath(ctx.arena, keys, BytesUtils.Guess);
    (Context(a, ctx.selected), q)
  }

  /** `Path::select_for_query`. */
  function SelectForQuery(ctx: Context, p: Path): (r: Context)
    requires Valid(ctx) && Has(ctx, p)
    ensures Valid(r) && r.arena == ctx.arena
    ensures r.selected.Some?
  {
    Context(ctx.arena, Some(if p.None? then SelectedRoot else SelectedSubtree(p.value)))
  }

  /** `PathCtx::get_selected_for_query`. */
  function GetSelectedForQuery(ctx: Context): (r: Option<Path>)
    requires Valid(ctx)
    ensures r.None? <==> ctx.selected.None?
    ensures r.Some? ==> Has(ctx, r.value)
  {
    match ctx.selected
    case None => None
    case Some(SelectedRoot) => Some(None)
    case Some(SelectedSubtree(id)) => Some(Some(id))
  }

  /** Selecting a path and reading the selection back gives that path; the
      segments are untouched. */
  lemma SelectedRoundTrip(ctx: Context, p: Path)
    requires Valid(ctx) && Has(ctx, p)
    ensures GetSelectedForQuery(SelectForQuery(ctx, p)) == Some(p)
    ensures SelectForQuery(ctx, p).arena == ctx.arena
  {
  }

  function CompareNats(a: nat, b: nat): int
  {
    if a < b then -1 else if a == b then 0 else 1
  }

  /** `Path::cmp`: by level, then by head id. */
  function Compare(ctx: Context, p: Path, q: Path): int
    requires Valid(ctx) && Has(ctx, p) && Has(ctx, q)
  {
    var byLevel := CompareNats(Interner.Level(ctx.arena, p), Interner.Level(ctx.arena, q));
    if byLevel != 0 then byLevel else Interner.CompareIds(p, q)
  }

  /** The ordering is a total order consistent with path equality: it is
      antisymmetric, transitive, and sorts by depth before anything else. */
  lemma CompareIsTotalOrder(ctx: Context, p: Path, q: Path, s: Path)
    requires Valid(ctx) && Has(ctx, p) && Has(ctx, q) && Has(ctx, s)
    ensures Compare(ctx, p, q) == 0 <==> p == q
    ensures Compare(ctx, p, q) == -Compare(ctx, q, p)
    ensures Compare(ctx, p, q) < 0 && Compare(ctx, q, s) < 0 ==> Compare(ctx, p, s) < 0
    ensures Interner.Level(ctx.arena, p) < Interner.Level(ctx.arena, q) ==> Compare(ctx, p, q) < 0
  {
    if Compare(ctx, p, q) == 0 {
      assert Interner.Level(ctx.arena, p) == Interner.Level(ctx.arena, q);
    }
  }

  /** The root sorts before every other path, and a parent before its children. */
  lemma RootAndParentsFirst(ctx: Context, p: Path)
    requires Valid(ctx) && Has(ctx, p) && p.Some?
    ensures Compare(ctx, None, p) < 0
    ensures var parent := Interner.Parent(ctx.arena, p).value;
      Compare(ctx, parent, p) < 0
  {
    assert Interner.ParentOk(ctx.arena, p.value);
  }

  /** `full_path_display`: `Root tree` for no segments, otherwise every segment
      but the last followed by `, `, then the last one, in brackets. */
  function FullPathDisplay(segments: seq<string>): string
  {
    if |segments| == 0 then "Root tree"
    else
      "[" + Terminated(segments[..|segments| - 1], ", ") + segments[|segments| - 1] + "]"
  }

  /** The full display is the segments joined by `, ` in brackets. */
  lemma FullPathDisplayJoins(segments: seq<string>)
    ensures |segments| == 0 ==> FullPathDisplay(segments) == "Root tree"
    ensures |segments| > 0 ==> FullPathDisplay(segments) == "[" + Join(segments, ", ") + "]"
  {
    if |segments| > 0 {
      var init := Terminated(segments[..|segments| - 1], ", ");
      var last := segments[|segments| - 1];
      assert FullPathDisplay(segments) == "[" + init + last + "]";
      TerminatedThenLastIsJoin(segments, ", ");
      assert init + last == Join(segments, ", ");
      Bracketed(init, last);
    }
  }

  lemma Bracketed(a: string, b: string)
    ensures "[" + a + b + "]" == "[" + (a + b) + "]"
  {
  }

  /** The text of one segment (`view_by_display`), in its own display variant. */
  function SegmentText(s: Interner.Segment<BytesUtils.BytesDisplayVariant>, f: BytesUtils.Foreign): string
  {
    BytesUtils.BytesByDisplayVariant(s.bytes, s.display, f)
  }

  /** The text of each segment of a path, root first: its key in its own
      display variant. */
  function SegmentTexts(ctx: Context, p: Path, f: BytesUtils.Foreign): (r: seq<string>)
    requires Valid(ctx) && Has(ctx, p)
    ensures |r| == Interner.Level(ctx.arena, p)
    ensures forall k :: 0 <= k < |r| ==>
      r[k] == BytesUtils.BytesByDisplayVariant(Interner.ToVec(ctx.arena, p)[k], Interner.Segments(ctx.arena, p)[k].display, f)
  {
    MapSeq(Interner.Segments(ctx.arena, p), s => SegmentText(s, f))
  }

  /** The full display of a path with no profile aliases: `Root tree` for the
      root, otherwise each segment's text, root first, joined by `, ` in
      brackets. */
  function PathText(ctx: Context, p: Path, f: BytesUtils.Foreign): (r: string)
    requires Valid(ctx) && Has(ctx, p)
    ensures p.None? <==> r == "Root tree"
    ensures p.Some? ==> r == "[" + Join(SegmentTexts(ctx, p, f), ", ") + "]"
  {
    var texts := SegmentTexts(ctx, p, f);
    FullPathDisplayJoins(texts);
    if p.Some? then
      assert Interner.ParentOk(ctx.arena, p.value);
      assert FullPathDisplay(texts)[0] == '[';
      FullPathDisplay(texts)
    else FullPathDisplay(texts)
  }
}
