/** The older path context used by the tree model (src/model/path_display.rs):
    the same interner with the older display variants. Paths are ordered by
    head id alone; children can be listed, and every descendant of a path can
    be visited breadth first. */
module PathDisplay {
  import opened Common
  import Interner
  import UiCommon

  type Arena = Interner.Ctx<UiCommon.DisplayVariant>
  type Path = Interner.Path
  type Id = Interner.Id

  /** `PathCtx::new`. */
  function New(): (c: Arena)
    ensures Interner.Valid(c) && |c.slab| == 0
  {
    Interner.New()
  }

  /** `PathCtx::get_root`. */
  function GetRoot(c: Arena): (p: Path)
    requires Interner.Valid(c)
    ensures Interner.Has(c, p) && Interner.Level(c, p) == 0 && Interner.ToVec(c, p) == []
  {
    None
  }

  /** `PathTwo::child`, guessing a new segment's display from its key. */
  function Child(c: Arena, p: Path, key: Key): (r: (Arena, Path))
    requires Interner.Valid(c) && Interner.Has(c, p)
    ensures Interner.Valid(r.0) && Interner.Extends(c, r.0) && Interner.Has(r.0, r.1)
    ensures Interner.ToVec(r.0, r.1) == Interner.ToVec(c, p) + [key]
    ensures r.1.Some? && r.0.slab[r.1.value].display ==
      (if r.1.value < |c.slab| then c.slab[r.1.value].display else UiCommon.Guess(key))
  {
    Interner.ChildPath(c, p, key, UiCommon.Guess);
    Interner.Child(c, p, key, UiCommon.Guess)
  }

  /** `PathCtx::add_path`. */
  function AddPath(c: Arena, keys: seq<Key>): (r: (Arena, Path))
    requires Interner.Valid(c)
    ensures Interner.Valid(r.0) && Interner.Extends(c, r.0) && Interner.Has(r.0, r.1)
    ensures Interner.ToVec(r.0, r.1) == keys
  {
    Interner.AddPath(c, keys, UiCommon.Guess)
  }

  /** `PathTwo::is_root`. */
  predicate IsRoot(p: Path)
  {
    p.None?
  }

  /** The root is the only path with no segments, no parent and level 0. */
  lemma IsRootIffEmpty(c: Arena, p: Path)
    requires Interner.Valid(c) && Interner.Has(c, p)
    ensures IsRoot(p) <==> Interner.ToVec(c, p) == []
    ensures IsRoot(p) <==> Interner.Level(c, p) == 0
    ensures IsRoot(p) <==> Interner.Parent(c, p).None?
  {
    if p.Some? {
      assert Interner.ParentOk(c, p.value);
      assert |Interner.ToVec(c, p)| > 0;
    }
  }

  /** `PathTwo::for_children`: the paths of a path's children, in the order the
      children were created. */
  function ForChildren(c: Arena, p: Path): (r: seq<Path>)
    requires Interner.Valid(c) && Interner.Has(c, p)
    ensures forall j :: 0 <= j < |r| ==>
      r[j].Some? && r[j].value < |c.slab| && c.slab[r[j].value].parent == p
    ensures forall j, k :: 0 <= j < k < |r| ==> r[j].value < r[k].value
    ensures forall i :: 0 <= i < |c.slab| && c.slab[i].parent == p ==> Some(i) in r
  {
    var ids := Interner.Children(c, p);
    var r := MapSeq(ids, (i: Id) => Some(i));
    assert forall i :: 0 <= i < |c.slab| && c.slab[i].parent == p ==> Some(i) in r by {
      forall i | 0 <= i < |c.slab| && c.slab[i].parent == p
        ensures Some(i) in r
      {
        var j :| 0 <= j < |ids| && ids[j] == i;
        assert r[j] == Some(i);
      }
    }
    r
  }

  /** `PathTwo::cmp` orders by head id alone (`Interner.CompareIds`). That
      still sorts every ancestor before its descendants, because a segment is
      created after its parent. */
  lemma {:induction false} AncestorsFirst(c: Arena, a: Path, i: Id)
    requires ParentsFirst(c) && i < |c.slab| && IsDescendant(c, a, i)
    ensures Interner.CompareIds(a, Some(i)) < 0
    decreases i
  {
    var q := c.slab[i].parent;
    if q != a {
      AncestorsFirst(c, a, q.value);
    }
  }

  /** Every parent has a smaller id than its child. */
  ghost predicate ParentsFirst(c: Arena)
  {
    forall i :: 0 <= i < |c.slab| && c.slab[i].parent.Some? ==> c.slab[i].parent.value < i
  }

  lemma ValidParentsFirst(c: Arena)
    requires Interner.Valid(c)
    ensures ParentsFirst(c)
  {
    forall i | 0 <= i < |c.slab| && c.slab[i].parent.Some?
      ensures c.slab[i].parent.value < i
    {
      assert Interner.ParentOk(c, i);
    }
  }

  /** Ordering by id is not ordering by depth: a deeper path created earlier
      sorts before a shallower one created later (`a/b` before `c`). */
  lemma IdOrderIsNotDepthOrder()
    ensures var c := SampleArena();
      && Interner.Valid(c)
      && Interner.ToVec(c, Some(1)) == [[0x61], [0x62]]
      && Interner.ToVec(c, Some(2)) == [[0x63]]
      && Interner.Level(c, Some(1)) > Interner.Level(c, Some(2))
      && Interner.CompareIds(Some(1), Some(2)) < 0
  {
    var c := SampleArena();
    SampleArenaValid();
    assert Interner.ToVec(c, Some(0)) == [[0x61]];
  }

  /** The arena after adding `a/b`, then `c`. */
  function SampleArena(): Arena
  {
    Interner.Ctx(
      [ Interner.Segment(None, [1], [0x61], UiCommon.String, 1),
        Interner.Segment(Some(0), [], [0x62], UiCommon.String, 2),
        Interner.Segment(None, [], [0x63], UiCommon.String, 1) ],
      [0, 2])
  }

  lemma SampleArenaValid()
    ensures Interner.Valid(SampleArena())
  {
    var c := SampleArena();
    assert Interner.ParentOk(c, 0) && Interner.ParentOk(c, 1) && Interner.ParentOk(c, 2);
    assert c.slab[0].bytes != c.slab[2].bytes;
    assert forall i, k :: 0 <= i < |c.slab| && 0 <= k < |c.slab| ==> Interner.KeysDiffer(c, i, k);
    forall p | Interner.Has(c, p)
      ensures Interner.Children(c, p) == Interner.IdsWithParent(c.slab, p, |c.slab|)
    {
      SampleChildren(c, p);
    }
  }

  lemma SampleChildren(c: Arena, p: Path)
    requires c == SampleArena() && Interner.Has(c, p)
    ensures Interner.Children(c, p) == Interner.IdsWithParent(c.slab, p, |c.slab|)
  {
    assert |c.slab| == 3;
    IdsOfSample(c.slab, p);
    if p == None {
      SampleRootChildren(c);
    } else if p == Some(0) {
      SampleSegmentChildren(c, 0);
    } else {
      SampleSegmentChildren(c, p.value);
    }
  }

  lemma SampleRootChildren(c: Arena)
    requires c == SampleArena()
    ensures Interner.Children(c, None) == [0, 2]
  {
  }

  lemma SampleSegmentChildren(c: Arena, i: Id)
    requires c == SampleArena() && i < 3
    ensures Interner.Children(c, Some(i)) == (if i == 0 then [1] else [])
  {
  }

  lemma IdsOfSample(slab: seq<Interner.Segment<UiCommon.DisplayVariant>>, p: Path)
    requires slab == SampleArena().slab
    ensures Interner.IdsWithParent(slab, p, 3) ==
      (if p == None then [0, 2] else if p == Some(0) then [1] else [])
  {
    IdsOfSampleTwo(slab, p);
    assert slab[2].parent == None;
  }

  lemma IdsOfSampleTwo(slab: seq<Interner.Segment<UiCommon.DisplayVariant>>, p: Path)
    requires slab == SampleArena().slab
    ensures Interner.IdsWithParent(slab, p, 2) == (if p == None then [0] else if p == Some(0) then [1] else [])
  {
    IdsOfSampleOne(slab, p);
    assert slab[1].parent == Some(0);
  }

  lemma IdsOfSampleOne(slab: seq<Interner.Segment<UiCommon.DisplayVariant>>, p: Path)
    requires slab == SampleArena().slab
    ensures Interner.IdsWithParent(slab, p, 1) == (if p == None then [0] else [])
  {
    assert slab[0].parent == None;
    assert Interner.IdsWithParent(slab, p, 0) == [];
  }

  /** Segment `i` lies strictly below path `a`: its parent is `a` or lies
      below `a`. In a valid arena a parent always has the smaller id, so the id
      test only bounds the recursion. */
  ghost predicate IsDescendant(c: Arena, a: Path, i: Id)
    requires i < |c.slab|
    decreases i
  {
    var q := c.slab[i].parent;
    q == a || (q.Some? && q.value < i && IsDescendant(c, a, q.value))
  }

  /** Every segment lies below the root. */
  lemma {:induction false} AllBelowRoot(c: Arena, i: Id)
    requires Interner.Valid(c) && i < |c.slab|
    ensures IsDescendant(c, None, i)
    decreases i
  {
    assert Interner.ParentOk(c, i);
    if c.slab[i].parent.Some? {
      AllBelowRoot(c, c.slab[i].parent.value);
    }
  }

  // Loop invariants of the breadth-first walk; `w` is the visited ids followed
  // by the queue.

  ghost predicate InArena(c: Arena, w: seq<Id>)
  {
    forall j :: 0 <= j < |w| ==> w[j] < |c.slab|
  }

  ghost predicate Distinct(w: seq<Id>)
  {
    forall j, k :: 0 <= j < k < |w| ==> w[j] != w[k]
  }

  /** `kids` lists, without repetition, exactly the segments whose parent is
      `p`; each has a larger id than `p` and sits one level below it. */
  ghost predicate ChildList(c: Arena, p: Path, kids: seq<Id>)
  {
    && InArena(c, kids) && Distinct(kids) && Interner.Has(c, p)
    && (forall j :: 0 <= j < |kids| ==> c.slab[kids[j]].parent == p)
    && (forall j :: 0 <= j < |kids| ==> c.slab[kids[j]].level == Interner.Level(c, p) + 1)
    && (forall j :: 0 <= j < |kids| ==> p.None? || p.value < kids[j])
    && (forall i :: 0 <= i < |c.slab| && c.slab[i].parent == p ==> i in kids)
  }

  lemma ChildrenListed(c: Arena, p: Path)
    requires Interner.Valid(c) && Interner.Has(c, p)
    ensures ChildList(c, p, Interner.Children(c, p))
  {
    var kids := Interner.Children(c, p);
    assert kids == Interner.IdsWithParent(c.slab, p, |c.slab|);
    forall j | 0 <= j < |kids|
      ensures c.slab[kids[j]].level == Interner.Level(c, p) + 1
      ensures p.None? || p.value < kids[j]
    {
      assert Interner.ParentOk(c, kids[j]);
    }
  }

  ghost predicate AllBelow(c: Arena, start: Path, w: seq<Id>)
    requires InArena(c, w)
  {
    forall j :: 0 <= j < |w| ==> IsDescendant(c, start, w[j])
  }

  /** Segment `i` is a child of `start` or of a visited segment. */
  ghost predicate HangsOff(c: Arena, start: Path, visited: seq<Id>, i: Id)
    requires i < |c.slab|
  {
    var q := c.slab[i].parent;
    q == start || (q.Some? && q.value in visited)
  }

  /** The children of `start` and of every visited segment are visited or queued. */
  ghost predicate Closed(c: Arena, start: Path, visited: seq<Id>, w: seq<Id>)
  {
    forall i :: 0 <= i < |c.slab| && HangsOff(c, start, visited, i) ==> i in w
  }

  /** Everything visited or queued hangs off `start` or off a visited segment. */
  ghost predicate Reached(c: Arena, start: Path, visited: seq<Id>, w: seq<Id>)
    requires InArena(c, w)
  {
    forall j :: 0 <= j < |w| ==> HangsOff(c, start, visited, w[j])
  }

  ghost predicate LevelsSorted(c: Arena, w: seq<Id>)
    requires InArena(c, w)
  {
    forall j, k :: 0 <= j < k < |w| ==> c.slab[w[j]].level <= c.slab[w[k]].level
  }

  /** The queue spans at most two adjacent levels. */
  ghost predicate Frontier(c: Arena, queue: seq<Id>)
    requires InArena(c, queue)
  {
    |queue| > 0 ==> c.slab[queue[|queue| - 1]].level <= c.slab[queue[0]].level + 1
  }

  ghost predicate Walk(c: Arena, start: Path, visited: seq<Id>, queue: seq<Id>)
  {
    var w := visited + queue;
    && InArena(c, w) && Distinct(w) && AllBelow(c, start, w)
    && Closed(c, start, visited, w) && Reached(c, start, visited, w)
    && LevelsSorted(c, w) && InArena(c, queue) && Frontier(c, queue)
  }

  /** A descendant of a path is never the path itself. */
  lemma {:induction false} DescendantIsNotSelf(c: Arena, a: Path, i: Id)
    requires ParentsFirst(c) && i < |c.slab| && IsDescendant(c, a, i)
    ensures a != Some(i)
  {
    AncestorsFirst(c, a, i);
  }

  lemma WalkStart(c: Arena, start: Path, kids: seq<Id>)
    requires ChildList(c, start, kids)
    ensures Walk(c, start, [], kids)
  {
    assert [] + kids == kids;
    forall j | 0 <= j < |kids|
      ensures IsDescendant(c, start, kids[j]) && HangsOff(c, start, [], kids[j])
    {
    }
    assert LevelsSorted(c, kids);
  }

  lemma WalkStep(c: Arena, start: Path, visited: seq<Id>, queue: seq<Id>, kids: seq<Id>)
    requires ParentsFirst(c) && Walk(c, start, visited, queue) && |queue| > 0
    requires queue[0] < |c.slab| && ChildList(c, Some(queue[0]), kids)
    ensures queue[0] !in visited
    ensures Walk(c, start, visited + [queue[0]], queue[1..] + kids)
  {
    var x := queue[0];
    var w := visited + queue;
    var v2 := visited + [x];
    assert v2 + (queue[1..] + kids) == w + kids by {
      assert queue == [x] + queue[1..];
    }
    assert w[|visited|] == x;
    assert IsDescendant(c, start, x);
    DescendantIsNotSelf(c, start, x);
    assert x !in visited by {
      forall j | 0 <= j < |visited|
        ensures visited[j] != x
      {
        assert w[j] == visited[j];
      }
    }
    forall k | 0 <= k < |kids|
      ensures kids[k] !in w
    {
      assert !HangsOff(c, start, visited, kids[k]);
      forall j | 0 <= j < |w|
        ensures w[j] != kids[k]
      {
        assert HangsOff(c, start, visited, w[j]);
      }
    }
    DistinctAppend(w, kids);
    BelowStep(c, start, visited, queue, kids);
    ClosedStep(c, start, visited, queue, kids);
    assert w[|w| - 1] == queue[|queue| - 1];
    SortedStep(c, w, |visited|, kids);
    assert LevelsSorted(c, queue) by {
      forall j, k | 0 <= j < k < |queue|
        ensures c.slab[queue[j]].level <= c.slab[queue[k]].level
      {
        assert queue[j] == w[|visited| + j] && queue[k] == w[|visited| + k];
      }
    }
    FrontierStep(c, queue, kids);
  }

  lemma DistinctAppend(a: seq<Id>, b: seq<Id>)
    requires Distinct(a) && Distinct(b)
    requires forall k :: 0 <= k < |b| ==> b[k] !in a
    ensures Distinct(a + b)
  {
    var ab := a + b;
    forall j, k | 0 <= j < k < |ab|
      ensures ab[j] != ab[k]
    {
      if j < |a| && k >= |a| {
        assert ab[k] == b[k - |a|];
      }
    }
  }

  lemma BelowStep(c: Arena, start: Path, visited: seq<Id>, queue: seq<Id>, kids: seq<Id>)
    requires Walk(c, start, visited, queue) && |queue| > 0
    requires queue[0] < |c.slab| && ChildList(c, Some(queue[0]), kids)
    ensures InArena(c, visited + queue + kids)
    ensures AllBelow(c, start, visited + queue + kids)
  {
    var x := queue[0];
    var w := visited + queue;
    assert w[|visited|] == x;
    assert IsDescendant(c, start, x);
    var w2 := w + kids;
    forall j | 0 <= j < |w2|
      ensures w2[j] < |c.slab| && IsDescendant(c, start, w2[j])
    {
      if j >= |w| {
        assert w2[j] == kids[j - |w|];
      }
    }
  }

  lemma ClosedStep(c: Arena, start: Path, visited: seq<Id>, queue: seq<Id>, kids: seq<Id>)
    requires Walk(c, start, visited, queue) && |queue| > 0
    requires queue[0] < |c.slab| && ChildList(c, Some(queue[0]), kids)
    ensures InArena(c, visited + queue + kids)
    ensures Closed(c, start, visited + [queue[0]], visited + queue + kids)
    ensures Reached(c, start, visited + [queue[0]], visited + queue + kids)
  {
    var x := queue[0];
    var v2 := visited + [x];
    var w := visited + queue;
    var w2 := w + kids;
    forall i | 0 <= i < |c.slab| && HangsOff(c, start, v2, i)
      ensures i in w2
    {
      if c.slab[i].parent == Some(x) {
        assert i in kids;
      } else {
        assert HangsOff(c, start, visited, i);
      }
    }
    forall j | 0 <= j < |w2|
      ensures w2[j] < |c.slab| && HangsOff(c, start, v2, w2[j])
    {
      if j < |w| {
        assert HangsOff(c, start, visited, w[j]);
      } else {
        assert w2[j] == kids[j - |w|];
      }
    }
  }

  lemma SortedStep(c: Arena, w: seq<Id>, at: nat, kids: seq<Id>)
    requires InArena(c, w) && InArena(c, kids) && LevelsSorted(c, w) && at < |w|
    requires c.slab[w[|w| - 1]].level <= c.slab[w[at]].level + 1
    requires forall j :: 0 <= j < |kids| ==> c.slab[kids[j]].level == c.slab[w[at]].level + 1
    ensures InArena(c, w + kids) && LevelsSorted(c, w + kids)
  {
    var w2 := w + kids;
    forall j, k | 0 <= j < k < |w2|
      ensures c.slab[w2[j]].level <= c.slab[w2[k]].level
    {
      if k >= |w| && j < |w| {
        assert c.slab[w[j]].level <= c.slab[w[|w| - 1]].level;
      }
    }
  }

  lemma FrontierStep(c: Arena, queue: seq<Id>, kids: seq<Id>)
    requires InArena(c, queue) && InArena(c, kids) && |queue| > 0
    requires LevelsSorted(c, queue) && Frontier(c, queue)
    requires forall j :: 0 <= j < |kids| ==> c.slab[kids[j]].level == c.slab[queue[0]].level + 1
    ensures InArena(c, queue[1..] + kids) && Frontier(c, queue[1..] + kids)
  {
  }

  /** Every descendant is reached once the walk has nothing left to visit. */
  lemma {:induction false} WalkComplete(c: Arena, start: Path, visited: seq<Id>, i: Id)
    requires Closed(c, start, visited, visited)
    requires i < |c.slab| && IsDescendant(c, start, i)
    ensures i in visited
    decreases i
  {
    var q := c.slab[i].parent;
    if q != start {
      WalkComplete(c, start, visited, q.value);
    }
    assert HangsOff(c, start, visited, i);
  }

  /** The ids `0 .. n - 1`, in order. */
  function Range(n: nat): (r: seq<Id>)
    ensures |r| == n && forall j :: 0 <= j < n ==> r[j] == j
  {
    seq(n, j => j)
  }

  function AllIds(n: nat): set<Id>
  {
    set i | i in Range(n)
  }

  function Elements(s: seq<Id>): set<Id>
  {
    set i | i in s
  }

  /** `PathTwo::for_each_descendant_recursively`: the ids of the paths handed to
      the callback, in order. Every descendant is visited exactly once, nothing
      else is, and shallower paths come first. */
  method ForEachDescendant(c: Arena, start: Path) returns (order: seq<Id>)
    requires Interner.Valid(c) && Interner.Has(c, start)
    ensures forall j :: 0 <= j < |order| ==> order[j] < |c.slab| && IsDescendant(c, start, order[j])
    ensures forall i :: 0 <= i < |c.slab| && IsDescendant(c, start, i) ==> i in order
    ensures forall j, k :: 0 <= j < k < |order| ==> order[j] != order[k]
    ensures forall j, k :: 0 <= j < k < |order| ==>
      Interner.Level(c, Some(order[j])) <= Interner.Level(c, Some(order[k]))
  {
    var queue := Interner.Children(c, start);
    order := [];
    ValidParentsFirst(c);
    ChildrenListed(c, start);
    WalkStart(c, start, queue);
    while |queue| > 0
      invariant Walk(c, start, order, queue)
      decreases AllIds(|c.slab|) - Elements(order)
    {
      var x := queue[0];
      var kids := Interner.Children(c, Some(x));
      ChildrenListed(c, Some(x));
      WalkStep(c, start, order, queue, kids);
      Unvisited(order, x, |c.slab|);
      queue := queue[1..] + kids;
      order := order + [x];
    }
    WalkDone(c, start, order);
  }

  lemma WalkDone(c: Arena, start: Path, order: seq<Id>)
    requires Walk(c, start, order, [])
    ensures forall j :: 0 <= j < |order| ==> order[j] < |c.slab| && IsDescendant(c, start, order[j])
    ensures forall i :: 0 <= i < |c.slab| && IsDescendant(c, start, i) ==> i in order
    ensures forall j, k :: 0 <= j < k < |order| ==> order[j] != order[k]
    ensures forall j, k :: 0 <= j < k < |order| ==> c.slab[order[j]].level <= c.slab[order[k]].level
  {
    assert order + [] == order;
    forall i | 0 <= i < |c.slab| && IsDescendant(c, start, i)
      ensures i in order
    {
      WalkComplete(c, start, order, i);
    }
  }

  /** Visiting a new id shrinks the set of ids not yet visited. */
  lemma Unvisited(order: seq<Id>, x: Id, n: nat)
    requires x < n && x !in order
    ensures AllIds(n) - Elements(order + [x]) < AllIds(n) - Elements(order)
  {
    assert Range(n)[x] == x;
    assert Elements(order + [x]) == Elements(order) + {x};
  }

  /** From the root the walk visits every segment of the arena. */
  method ForEachSegment(c: Arena) returns (order: seq<Id>)
    requires Interner.Valid(c)
    ensures forall i :: 0 <= i < |c.slab| <==> i in order
    ensures |order| == |c.slab|
  {
    order := ForEachDescendant(c, None);
    forall i | 0 <= i < |c.slab|
      ensures i in order
    {
      AllBelowRoot(c, i);
    }
    DistinctBelowIsAll(order, |c.slab|);
  }

  /** A duplicate-free list of ids below `n` holding every one of them has
      length `n`. */
  lemma DistinctBelowIsAll(s: seq<Id>, n: nat)
    requires forall j :: 0 <= j < |s| ==> s[j] < n
    requires forall j, k :: 0 <= j < k < |s| ==> s[j] != s[k]
    requires forall i :: 0 <= i < n ==> i in s
    ensures |s| == n
  {
    assert Elements(s) == AllIds(n) by {
      forall i | i in AllIds(n)
        ensures i in Elements(s)
      {
        var j :| 0 <= j < n && Range(n)[j] == i;
      }
      forall i | i in Elements(s)
        ensures i in AllIds(n)
      {
        assert Range(n)[i] == i;
      }
    }
    DistinctCard(s);
    DistinctCard(Range(n));
  }

  lemma {:induction false} DistinctCard(s: seq<Id>)
    requires forall j, k :: 0 <= j < k < |s| ==> s[j] != s[k]
    ensures |Elements(s)| == |s|
  {
    if |s| > 0 {
      var t := s[..|s| - 1];
      DistinctCard(t);
      assert s == t + [s[|s| - 1]];
      assert Elements(s) == Elements(t) + {s[|s| - 1]};
    }
  }
}
