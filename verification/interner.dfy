/** The path interner both path modules are built on (src/path_ctx.rs and
    src/model/path_display.rs): an append-only arena of path segments, each
    holding its key, its parent, its children in creation order, its depth and a
    display variant of type `D`. A path is the id of its last segment, or `None`
    for the root, so paths are compared by id. */
module Interner {
  import opened Common

  /** Index of a segment in the arena (a slab id; segments are never removed,
      so ids are handed out in order). */
  type Id = nat

  /** The last segment of a path; `None` is the root path. */
  type Path = Option<Id>

  datatype Segment<D> = Segment(parent: Path, children: seq<Id>, bytes: Key, display: D, level: nat)

  datatype Ctx<D> = Ctx(slab: seq<Segment<D>>, rootChildren: seq<Id>)

  predicate Has<D>(c: Ctx<D>, p: Path)
  {
    p.None? || p.value < |c.slab|
  }

  /** The child list a path's segment keeps (the root keeps its own). */
  function Children<D>(c: Ctx<D>, p: Path): seq<Id>
    requires Has(c, p)
  {
    if p.None? then c.rootChildren else c.slab[p.value].children
  }

  /** Rust's ordering of `Option<usize>` head ids, `None` first: the whole of
      `PathTwo::cmp`, and the tie-break of `Path::cmp`. */
  function CompareIds(a: Path, b: Path): (r: int)
    ensures r == 0 <==> a == b
    ensures r < 0 <==> (a.None? && b.Some?) || (a.Some? && b.Some? && a.value < b.value)
  {
    match (a, b)
    case (None, None) => 0
    case (None, Some(_)) => -1
    case (Some(_), None) => 1
    case (Some(x), Some(y)) => if x < y then -1 else if x == y then 0 else 1
  }

  /** Number of segments of a path; 0 for the root. */
  function Level<D>(c: Ctx<D>, p: Path): nat
    requires Has(c, p)
  {
    if p.None? then 0 else c.slab[p.value].level
  }

  /** The ids below `n` whose parent is `p`, in creation order. */
  function IdsWithParent<D>(slab: seq<Segment<D>>, p: Path, n: nat): (r: seq<Id>)
    requires n <= |slab|
    ensures forall j :: 0 <= j < |r| ==> r[j] < n && slab[r[j]].parent == p
    ensures forall j, k :: 0 <= j < k < |r| ==> r[j] < r[k]
    ensures forall i :: 0 <= i < n && slab[i].parent == p ==> i in r
  {
    if n == 0 then []
    else IdsWithParent(slab, p, n - 1) + (if slab[n - 1].parent == p then [n - 1] else [])
  }

  /** Segment `i` comes after its parent and sits one level below it. */
  ghost predicate ParentOk<D>(c: Ctx<D>, i: Id)
    requires i < |c.slab|
  {
    var q := c.slab[i].parent;
    && (q.Some? ==> q.value < i)
    && c.slab[i].level == (if q.None? then 1 else c.slab[q.value].level + 1)
  }

  /** Segments `i` and `k` are not two siblings with the same key. */
  ghost predicate KeysDiffer<D>(c: Ctx<D>, i: Id, k: Id)
    requires i < |c.slab| && k < |c.slab|
  {
    i != k && c.slab[i].parent == c.slab[k].parent ==> c.slab[i].bytes != c.slab[k].bytes
  }

  /** The arena is a forest hanging off the root: parents come before their
      children, a segment is one level below its parent, siblings have different
      keys, and every child list holds exactly the segment's children in the
      order they were created. */
  ghost predicate Valid<D>(c: Ctx<D>)
  {
    && (forall i :: 0 <= i < |c.slab| ==> ParentOk(c, i))
    && (forall i, k :: 0 <= i < |c.slab| && 0 <= k < |c.slab| ==> KeysDiffer(c, i, k))
    && (forall p {:trigger Children(c, p)} :: Has(c, p) ==> Children(c, p) == IdsWithParent(c.slab, p, |c.slab|))
  }

  /** `PathCtx::new`. */
  function New<D>(): (c: Ctx<D>)
    ensures Valid(c) && |c.slab| == 0
  {
    Ctx([], [])
  }

  /** `c2` is `c1` with segments appended and children added: everything `c1`
      says about a segment still holds. */
  ghost predicate Extends<D>(c1: Ctx<D>, c2: Ctx<D>)
  {
    && |c1.slab| <= |c2.slab|
    && forall i :: 0 <= i < |c1.slab| ==>
         && c2.slab[i].parent == c1.slab[i].parent
         && c2.slab[i].bytes == c1.slab[i].bytes
         && c2.slab[i].level == c1.slab[i].level
         && c2.slab[i].display == c1.slab[i].display
  }

  lemma {:induction false} IdsWithParentFrame<D>(s1: seq<Segment<D>>, s2: seq<Segment<D>>, p: Path, n: nat)
    requires n <= |s1| && n <= |s2|
    requires forall i :: 0 <= i < n ==> s1[i].parent == s2[i].parent
    ensures IdsWithParent(s1, p, n) == IdsWithParent(s2, p, n)
  {
    if n > 0 {
      IdsWithParentFrame(s1, s2, p, n - 1);
    }
  }

  /** `iter().find` over `ids` for the first segment whose key is `key`. */
  function Find<D>(slab: seq<Segment<D>>, ids: seq<Id>, key: Key): (r: Option<Id>)
    requires forall j :: 0 <= j < |ids| ==> ids[j] < |slab|
    ensures r.Some? ==> r.value in ids && slab[r.value].bytes == key
    ensures r.None? <==> forall j :: 0 <= j < |ids| ==> slab[ids[j]].bytes != key
  {
    if |ids| == 0 then None
    else if slab[ids[0]].bytes == key then Some(ids[0])
    else Find(slab, ids[1..], key)
  }

  /** The existing child of `p` with key `key`, if any. */
  function FindChild<D>(c: Ctx<D>, p: Path, key: Key): (r: Option<Id>)
    requires Valid(c) && Has(c, p)
    ensures r.Some? ==> r.value < |c.slab| && c.slab[r.value].parent == p && c.slab[r.value].bytes == key
    ensures r.None? <==> forall i :: 0 <= i < |c.slab| && c.slab[i].parent == p ==> c.slab[i].bytes != key
  {
    var ids := Children(c, p);
    assert ids == IdsWithParent(c.slab, p, |c.slab|);
    var r := Find(c.slab, ids, key);
    if r.None? then
      assert forall i :: 0 <= i < |c.slab| && c.slab[i].parent == p ==> i in ids;
      r
    else r
  }

  /** The arena after appending a new child `key` of `p`. */
  function Append<D>(c: Ctx<D>, p: Path, key: Key, display: D): Ctx<D>
    requires Has(c, p)
  {
    var n := |c.slab|;
    var seg := Segment(p, [], key, display, Level(c, p) + 1);
    match p
    case None => Ctx(c.slab + [seg], c.rootChildren + [n])
    case Some(j) =>
      Ctx(c.slab[j := c.slab[j].(children := c.slab[j].children + [n])] + [seg], c.rootChildren)
  }

  lemma AppendValid<D>(c: Ctx<D>, p: Path, key: Key, display: D)
    requires Valid(c) && Has(c, p)
    requires FindChild(c, p, key).None?
    ensures var c2 := Append(c, p, key, display);
      Valid(c2) && Extends(c, c2) && |c2.slab| == |c.slab| + 1
  {
    AppendParents(c, p, key, display);
    AppendAllParentOk(c, p, key, display);
    AppendAllKeysDiffer(c, p, key, display);
    AppendAllChildren(c, p, key, display);
  }

  lemma AppendAllParentOk<D>(c: Ctx<D>, p: Path, key: Key, display: D)
    requires Valid(c) && Has(c, p)
    ensures var c2 := Append(c, p, key, display);
      forall i :: 0 <= i < |c2.slab| ==> ParentOk(c2, i)
  {
    var c2 := Append(c, p, key, display);
    forall i | 0 <= i < |c2.slab|
      ensures ParentOk(c2, i)
    {
      AppendParentOk(c, p, key, display, i);
    }
  }

  lemma AppendAllKeysDiffer<D>(c: Ctx<D>, p: Path, key: Key, display: D)
    requires Valid(c) && Has(c, p)
    requires FindChild(c, p, key).None?
    ensures var c2 := Append(c, p, key, display);
      forall i, k :: 0 <= i < |c2.slab| && 0 <= k < |c2.slab| ==> KeysDiffer(c2, i, k)
  {
    var c2 := Append(c, p, key, display);
    forall i, k | 0 <= i < |c2.slab| && 0 <= k < |c2.slab|
      ensures KeysDiffer(c2, i, k)
    {
      AppendKeysDiffer(c, p, key, display, i, k);
    }
  }

  lemma AppendAllChildren<D>(c: Ctx<D>, p: Path, key: Key, display: D)
    requires Valid(c) && Has(c, p)
    ensures var c2 := Append(c, p, key, display);
      forall q {:trigger Children(c2, q)} :: Has(c2, q) ==> Children(c2, q) == IdsWithParent(c2.slab, q, |c2.slab|)
  {
    var c2 := Append(c, p, key, display);
    forall q | Has(c2, q)
      ensures Children(c2, q) == IdsWithParent(c2.slab, q, |c2.slab|)
    {
      AppendChildren(c, p, key, display, q);
    }
  }

  lemma AppendParentOk<D>(c: Ctx<D>, p: Path, key: Key, display: D, i: Id)
    requires Valid(c) && Has(c, p) && i <= |c.slab|
    ensures i < |Append(c, p, key, display).slab| && ParentOk(Append(c, p, key, display), i)
  {
    AppendParents(c, p, key, display);
    if i < |c.slab| {
      assert ParentOk(c, i);
    }
  }

  lemma AppendKeysDiffer<D>(c: Ctx<D>, p: Path, key: Key, display: D, i: Id, k: Id)
    requires Valid(c) && Has(c, p) && i <= |c.slab| && k <= |c.slab|
    requires FindChild(c, p, key).None?
    ensures var c2 := Append(c, p, key, display);
      i < |c2.slab| && k < |c2.slab| && KeysDiffer(c2, i, k)
  {
    var n := |c.slab|;
    AppendSegment(c, p, key, display, i);
    AppendSegment(c, p, key, display, k);
    if i < n && k < n {
      assert KeysDiffer(c, i, k);
    }
  }

  /** Where segment `i` of the appended arena hangs and what key it has. */
  lemma AppendSegment<D>(c: Ctx<D>, p: Path, key: Key, display: D, i: Id)
    requires Has(c, p) && i <= |c.slab|
    ensures var c2 := Append(c, p, key, display);
      && |c2.slab| == |c.slab| + 1
      && (i < |c.slab| ==> c2.slab[i].parent == c.slab[i].parent && c2.slab[i].bytes == c.slab[i].bytes)
      && (i == |c.slab| ==> c2.slab[i].parent == p && c2.slab[i].bytes == key)
  {
  }

  lemma AppendChildren<D>(c: Ctx<D>, p: Path, key: Key, display: D, q: Path)
    requires Valid(c) && Has(c, p)
    requires Has(Append(c, p, key, display), q)
    ensures var c2 := Append(c, p, key, display);
      Children(c2, q) == IdsWithParent(c2.slab, q, |c2.slab|)
  {
    if q == Some(|c.slab|) {
      AppendChildrenOfNew(c, p, key, display);
    } else {
      AppendChildrenOfOld(c, p, key, display, q);
    }
  }

  lemma AppendChildrenOfNew<D>(c: Ctx<D>, p: Path, key: Key, display: D)
    requires Valid(c) && Has(c, p)
    ensures var c2 := Append(c, p, key, display);
      Children(c2, Some(|c.slab|)) == IdsWithParent(c2.slab, Some(|c.slab|), |c2.slab|)
  {
    var n := |c.slab|;
    var c2 := Append(c, p, key, display);
    AppendParents(c, p, key, display);
    forall i | 0 <= i < n + 1
      ensures c2.slab[i].parent != Some(n)
    {
      if i < n {
        assert ParentOk(c, i);
      }
    }
    IdsWithParentEmpty(c2.slab, Some(n), n + 1);
  }

  lemma AppendChildrenOfOld<D>(c: Ctx<D>, p: Path, key: Key, display: D, q: Path)
    requires Valid(c) && Has(c, p) && Has(c, q)
    ensures var c2 := Append(c, p, key, display);
      Children(c2, q) == IdsWithParent(c2.slab, q, |c2.slab|)
  {
    var n := |c.slab|;
    var c2 := Append(c, p, key, display);
    AppendParents(c, p, key, display);
    assert forall i :: 0 <= i < n ==> c2.slab[i].parent == c.slab[i].parent;
    IdsWithParentFrame(c.slab, c2.slab, q, n);
    assert Children(c, q) == IdsWithParent(c.slab, q, n);
    assert Children(c2, q) == Children(c, q) + (if q == p then [n] else []);
  }

  lemma AppendParents<D>(c: Ctx<D>, p: Path, key: Key, display: D)
    requires Has(c, p)
    ensures var c2 := Append(c, p, key, display);
      && |c2.slab| == |c.slab| + 1
      && c2.slab[|c.slab|] == Segment(p, [], key, display, Level(c, p) + 1)
      && (forall i :: 0 <= i < |c.slab| ==>
            c2.slab[i] == c.slab[i].(children := Children(c2, Some(i))))
      && c2.rootChildren == c.rootChildren + (if p.None? then [|c.slab|] else [])
      && (forall i :: 0 <= i < |c.slab| ==>
            Children(c2, Some(i)) == c.slab[i].children + (if p == Some(i) then [|c.slab|] else []))
  {
  }

  lemma {:induction false} IdsWithParentEmpty<D>(slab: seq<Segment<D>>, p: Path, n: nat)
    requires n <= |slab|
    requires forall i :: 0 <= i < n ==> slab[i].parent != p
    ensures IdsWithParent(slab, p, n) == []
  {
    if n > 0 {
      IdsWithParentEmpty(slab, p, n - 1);
    }
  }

  /** `Path::child`: the existing child of `p` with key `key`, or a new segment
      appended to the arena, with the display variant `guess` picks for the key. */
  function Child<D>(c: Ctx<D>, p: Path, key: Key, guess: Key -> D): (r: (Ctx<D>, Path))
    requires Valid(c) && Has(c, p)
    ensures Valid(r.0) && Extends(c, r.0)
    ensures r.1.Some? && r.1.value < |r.0.slab|
    ensures r.0.slab[r.1.value].parent == p && r.0.slab[r.1.value].bytes == key
    ensures FindChild(c, p, key).Some? ==> r.0 == c
    ensures FindChild(c, p, key).None? ==>
      && r.1 == Some(|c.slab|)
      && |r.0.slab| == |c.slab| + 1
      && r.0.slab[|c.slab|].display == guess(key)
  {
    match FindChild(c, p, key)
    case Some(id) => (c, Some(id))
    case None => NewChild(c, p, key, guess(key))
  }

  /** A new segment `key` under `p`, which has no child with that key. */
  function NewChild<D>(c: Ctx<D>, p: Path, key: Key, display: D): (r: (Ctx<D>, Path))
    requires Valid(c) && Has(c, p) && FindChild(c, p, key).None?
    ensures Valid(r.0) && Extends(c, r.0)
    ensures r.1 == Some(|c.slab|) && |r.0.slab| == |c.slab| + 1
    ensures r.0.slab[|c.slab|].parent == p && r.0.slab[|c.slab|].bytes == key
    ensures r.0.slab[|c.slab|].display == display
  {
    AppendValid(c, p, key, display);
    AppendParents(c, p, key, display);
    (Append(c, p, key, display), Some(|c.slab|))
  }

  function Parent<D>(c: Ctx<D>, p: Path): (r: Option<Path>)
    requires Valid(c) && Has(c, p)
    ensures r.None? <==> p.None?
    ensures r.Some? ==> Has(c, r.value) && Level(c, r.value) + 1 == Level(c, p)
  {
    match p
    case None => None
    case Some(i) => assert ParentOk(c, i); Some(c.slab[i].parent)
  }

  /** `parent_with_key`: the parent path and the key of the last segment. */
  function ParentWithKey<D>(c: Ctx<D>, p: Path): (r: Option<(Path, Key)>)
    requires Valid(c) && Has(c, p)
    ensures r.None? <==> p.None?
    ensures r.Some? ==> Has(c, r.value.0) && Parent(c, p) == Some(r.value.0)
    ensures r.Some? ==> ToVec(c, r.value.0) + [r.value.1] == ToVec(c, p)
  {
    match p
    case None => None
    case Some(i) => assert ParentOk(c, i); Some((c.slab[i].parent, c.slab[i].bytes))
  }

  function Measure(p: Path): nat
  {
    if p.None? then 0 else p.value + 1
  }

  /** The keys of a path from the root down (`to_vec`). */
  function ToVec<D>(c: Ctx<D>, p: Path): (r: seq<Key>)
    requires Valid(c) && Has(c, p)
    ensures |r| == Level(c, p)
    decreases Measure(p)
  {
    match p
    case None => []
    case Some(i) => assert ParentOk(c, i); ToVec(c, c.slab[i].parent) + [c.slab[i].bytes]
  }

  /** The segments of a path from the root down (`for_segments`). */
  function Segments<D>(c: Ctx<D>, p: Path): (r: seq<Segment<D>>)
    requires Valid(c) && Has(c, p)
    ensures |r| == Level(c, p)
    ensures forall k :: 0 <= k < |r| ==> r[k].bytes == ToVec(c, p)[k] && r[k].level == k + 1
    decreases Measure(p)
  {
    match p
    case None => []
    case Some(i) => assert ParentOk(c, i); Segments(c, c.slab[i].parent) + [c.slab[i]]
  }

  /** The `to_vec` loop: collect keys walking up, then reverse. */
  method CollectPath<D>(c: Ctx<D>, p: Path) returns (path: seq<Key>)
    requires Valid(c) && Has(c, p)
    ensures path == ToVec(c, p)
  {
    var up: seq<Key> := [];
    var current := p;
    while current.Some?
      invariant Has(c, current)
      invariant ToVec(c, current) + Reverse(up) == ToVec(c, p)
      decreases Measure(current)
    {
      var seg := c.slab[current.value];
      assert ParentOk(c, current.value);
      ReverseSnoc(up, seg.bytes);
      up := up + [seg.bytes];
      current := seg.parent;
    }
    path := Reverse(up);
  }

  lemma ReverseSnoc<T>(s: seq<T>, x: T)
    ensures Reverse(s + [x]) == [x] + Reverse(s)
  {
    var l := Reverse(s + [x]);
    var r := [x] + Reverse(s);
    assert |l| == |r|;
    forall i | 0 <= i < |l|
      ensures l[i] == r[i]
    {
    }
  }

  /** Paths valid in an arena keep their keys in every extension of it. */
  lemma {:induction false} ToVecExtends<D>(c1: Ctx<D>, c2: Ctx<D>, p: Path)
    requires Valid(c1) && Valid(c2) && Extends(c1, c2) && Has(c1, p)
    ensures Has(c2, p) && ToVec(c2, p) == ToVec(c1, p)
    decreases Measure(p)
  {
    if p.Some? {
      assert ParentOk(c1, p.value);
      ToVecExtends(c1, c2, c1.slab[p.value].parent);
    }
  }

  /** A new child's path is its parent's path with the key appended, and the
      parent and key can be read back from it. */
  lemma ChildPath<D>(c: Ctx<D>, p: Path, key: Key, guess: Key -> D)
    requires Valid(c) && Has(c, p)
    ensures var (c2, q) := Child(c, p, key, guess);
      && ToVec(c2, q) == ToVec(c, p) + [key]
      && ParentWithKey(c2, q) == Some((p, key))
      && Level(c2, q) == Level(c, p) + 1
  {
    var (c2, q) := Child(c, p, key, guess);
    ToVecExtends(c, c2, p);
  }

  /** Interning: two paths of an arena are the same id exactly when they have
      the same keys. */
  lemma {:induction false} Interned<D>(c: Ctx<D>, p: Path, q: Path)
    requires Valid(c) && Has(c, p) && Has(c, q)
    ensures ToVec(c, p) == ToVec(c, q) <==> p == q
    decreases Measure(p)
  {
    if p.None? && q.Some? {
      assert ParentOk(c, q.value);
    } else if p.Some? && q.None? {
      assert ParentOk(c, p.value);
    } else if p.Some? && q.Some? && ToVec(c, p) == ToVec(c, q) {
      var i, j := p.value, q.value;
      assert ParentOk(c, i) && ParentOk(c, j);
      var pi, pj := c.slab[i].parent, c.slab[j].parent;
      var v := ToVec(c, p);
      assert ToVec(c, pi) == v[..|v| - 1] == ToVec(c, pj);
      Interned(c, pi, pj);
      assert KeysDiffer(c, i, j);
    }
  }

  /** Asking again for a child that exists changes nothing and gives the same path. */
  lemma ChildIdempotent<D>(c: Ctx<D>, p: Path, key: Key, guess: Key -> D)
    requires Valid(c) && Has(c, p)
    ensures var (c2, q) := Child(c, p, key, guess);
      Has(c2, p) && Child(c2, p, key, guess) == (c2, q)
  {
    var (c2, q) := Child(c, p, key, guess);
    var f := FindChild(c2, p, key);
    assert KeysDiffer(c2, f.value, q.value);
  }

  lemma AppendHeadTail<T>(a: seq<T>, s: seq<T>)
    requires |s| > 0
    ensures a + [s[0]] + s[1..] == a + s
  {
    assert [s[0]] + s[1..] == s;
  }

  lemma PrefixOfAppend<T>(a: seq<T>, s: seq<T>, k: nat)
    requires k <= |s|
    ensures (a + s)[..|a| + k] == a + s[..k]
  {
  }

  lemma ExtendsTransitive<D>(c1: Ctx<D>, c2: Ctx<D>, c3: Ctx<D>)
    requires Extends(c1, c2) && Extends(c2, c3)
    ensures Extends(c1, c3)
  {
  }

  /** `add_iter` and `add_path` from a starting path: one `child` call per key,
      first key first. */
  function AddFrom<D>(c: Ctx<D>, p: Path, keys: seq<Key>, guess: Key -> D): (r: (Ctx<D>, Path))
    requires Valid(c) && Has(c, p)
    ensures Valid(r.0) && Extends(c, r.0) && Has(r.0, r.1)
    ensures ToVec(r.0, r.1) == ToVec(c, p) + keys
    decreases |keys|
  {
    if |keys| == 0 then (c, p)
    else
      var (c1, q) := Child(c, p, keys[0], guess);
      ChildPath(c, p, keys[0], guess);
      var r := AddFrom(c1, q, keys[1..], guess);
      ExtendsTransitive(c, c1, r.0);
      AppendHeadTail(ToVec(c, p), keys);
      r
  }

  /** `PathCtx::add_path`: the path with exactly these keys, interned. */
  function AddPath<D>(c: Ctx<D>, keys: seq<Key>, guess: Key -> D): (r: (Ctx<D>, Path))
    requires Valid(c)
    ensures Valid(r.0) && Extends(c, r.0) && Has(r.0, r.1)
    ensures ToVec(r.0, r.1) == keys
  {
    AddFrom(c, None, keys, guess)
  }

  /** The ancestor `k` levels up. */
  function Up<D>(c: Ctx<D>, p: Path, k: nat): (r: Path)
    requires Valid(c) && Has(c, p) && k <= Level(c, p)
    ensures Has(c, r) && ToVec(c, r) == ToVec(c, p)[..Level(c, p) - k]
    decreases k
  {
    if k == 0 then p
    else
      assert ParentOk(c, p.value);
      Up(c, c.slab[p.value].parent, k - 1)
  }

  /** The proper ancestors of a path: its parent, the parent's parent, and so on
      up to the root. */
  ghost function Ancestors<D>(c: Ctx<D>, p: Path): (r: set<Path>)
    requires Valid(c) && Has(c, p)
    ensures forall a :: a in r ==> Has(c, a) && Level(c, a) < Level(c, p)
    ensures p.Some? <==> None in r
    decreases Measure(p)
  {
    match p
    case None => {}
    case Some(i) =>
      assert ParentOk(c, i);
      var q := c.slab[i].parent;
      {q} + Ancestors(c, q)
  }

  /** Finding the child a path already has allocates nothing. */
  lemma ChildExisting<D>(c: Ctx<D>, p: Path, q: Path, key: Key, guess: Key -> D)
    requires Valid(c) && Has(c, p) && Has(c, q)
    requires ToVec(c, q) == ToVec(c, p) + [key]
    ensures Child(c, p, key, guess) == (c, q)
  {
    var v := ToVec(c, q);
    assert q.Some?;
    var j := q.value;
    assert ParentOk(c, j);
    assert ToVec(c, c.slab[j].parent) == v[..|v| - 1];
    Interned(c, c.slab[j].parent, p);
    var f := FindChild(c, p, key);
    assert f.Some?;
    assert KeysDiffer(c, f.value, j);
  }

  /** Adding keys that lead to an existing path returns that path and leaves the
      arena as it was. */
  lemma {:induction false} AddFromExisting<D>(c: Ctx<D>, p: Path, keys: seq<Key>, q: Path, guess: Key -> D)
    requires Valid(c) && Has(c, p) && Has(c, q)
    requires ToVec(c, q) == ToVec(c, p) + keys
    ensures AddFrom(c, p, keys, guess) == (c, q)
    decreases |keys|
  {
    var a := ToVec(c, p);
    if |keys| > 0 {
      var q1 := Up(c, q, |keys| - 1);
      assert ToVec(c, q1) == a + [keys[0]] by {
        PrefixOfAppend(a, keys, 1);
        assert keys[..1] == [keys[0]];
      }
      ChildExisting(c, p, q1, keys[0], guess);
      assert ToVec(c, q) == ToVec(c, q1) + keys[1..] by {
        AppendHeadTail(a, keys);
      }
      AddFromExisting(c, q1, keys[1..], q, guess);
    } else {
      assert a + keys == a;
      Interned(c, p, q);
    }
  }

  /** Re-adding the keys of any path of the arena gives back that path. */
  lemma AddPathOfToVec<D>(c: Ctx<D>, q: Path, guess: Key -> D)
    requires Valid(c) && Has(c, q)
    ensures AddPath(c, ToVec(c, q), guess) == (c, q)
  {
    AddFromExisting(c, None, ToVec(c, q), q, guess);
  }

  /** `update_display_variant`: only the last segment's display changes. */
  function SetDisplay<D>(c: Ctx<D>, p: Path, d: D): (r: Ctx<D>)
    requires Valid(c) && Has(c, p)
    ensures Valid(r) && |r.slab| == |c.slab| && r.rootChildren == c.rootChildren
    ensures GetDisplay(r, p) == (if p.None? then None else Some(d))
    ensures forall i :: 0 <= i < |c.slab| ==>
      r.slab[i] == c.slab[i].(display := r.slab[i].display)
    ensures forall i :: 0 <= i < |c.slab| && Some(i) != p ==> r.slab[i] == c.slab[i]
  {
    match p
    case None => c
    case Some(i) =>
      var r := Ctx(c.slab[i := c.slab[i].(display := d)], c.rootChildren);
      SetDisplayValid(c, i, d);
      r
  }

  lemma SetDisplayValid<D>(c: Ctx<D>, i: Id, d: D)
    requires Valid(c) && i < |c.slab|
    ensures Valid(Ctx(c.slab[i := c.slab[i].(display := d)], c.rootChildren))
  {
    var r := Ctx(c.slab[i := c.slab[i].(display := d)], c.rootChildren);
    assert forall j :: 0 <= j < |c.slab| ==>
      r.slab[j] == c.slab[j].(display := r.slab[j].display);
    assert forall j :: 0 <= j < |r.slab| ==> ParentOk(r, j) by {
      forall j | 0 <= j < |r.slab|
        ensures ParentOk(r, j)
      {
        assert ParentOk(c, j);
      }
    }
    assert forall j, k :: 0 <= j < |r.slab| && 0 <= k < |r.slab| ==> KeysDiffer(r, j, k) by {
      forall j, k | 0 <= j < |r.slab| && 0 <= k < |r.slab|
        ensures KeysDiffer(r, j, k)
      {
        assert KeysDiffer(c, j, k);
      }
    }
    assert forall q {:trigger Children(r, q)} :: Has(r, q) ==>
      Children(r, q) == IdsWithParent(r.slab, q, |r.slab|) by {
      forall q | Has(r, q)
        ensures Children(r, q) == IdsWithParent(r.slab, q, |r.slab|)
      {
        IdsWithParentFrame(c.slab, r.slab, q, |c.slab|);
        assert Children(c, q) == IdsWithParent(c.slab, q, |c.slab|);
      }
    }
  }

  /** `get_display_variant`: `None` for the root. */
  function GetDisplay<D>(c: Ctx<D>, p: Path): (r: Option<D>)
    requires Has(c, p)
    ensures r.None? <==> p.None?
  {
    match p
    case None => None
    case Some(i) => Some(c.slab[i].display)
  }
}
