/**
 * The edits `Add`, `Remove` and `Split` make to the block tree, as functions on
 * a View, and the proofs that each keeps the tree invariant.
 */
module TreeEdits {
  import opened Wrappers
  import opened Paths
  import opened Records
  import opened Blocks
  import opened Tree

  /** A record with its existence flag and length forgotten: what a search looks at. */
  function Skeleton(r: Record): Record {
    r.(fileExists := false, fileLength := 0)
  }

  /** Two views with the same blocks, the same record counts, and records differing at most in existence and length. */
  predicate SameShape(v: View, w: View) {
    v.Keys == w.Keys &&
    (forall id | id in v :: |v[id]| == |w[id]|) &&
    (forall id, k | id in v && 0 <= k < |v[id]| :: Skeleton(v[id][k]) == Skeleton(w[id][k]))
  }

  /** The invariant looks only at paths, owners and child pointers. */
  lemma ShapeKeepsViewOk(v: View, w: View, rank: Rank)
    requires ViewOk(v, rank) && SameShape(v, w)
    ensures ViewOk(w, rank)
  {
    forall id | id in w
      ensures BlockOk(w, rank, id)
    {
      assert BlockOk(v, rank, id);
      forall k | 0 <= k < |w[id]|
        ensures RecordOk(w, rank, id, k)
      {
        assert RecordOk(v, rank, id, k);
        assert Skeleton(v[id][k]) == Skeleton(w[id][k]);
        var c := w[id][k].indirect;
        if c in w && k + 1 < |w[id]| {
          assert AllBelow(v[c], v[id][k + 1].path);
          assert Skeleton(v[id][k + 1]) == Skeleton(w[id][k + 1]);
          forall i | 0 <= i < |w[c]|
            ensures KeyBelow(w[c][i].path, w[id][k + 1].path)
          {
            assert Skeleton(v[c][i]) == Skeleton(w[c][i]);
          }
        }
      }
      forall i | 0 <= i < |w[id]|
        ensures w[id][i].path.Some?
      {
        assert Skeleton(v[id][i]) == Skeleton(w[id][i]);
      }
      forall i, j | 0 <= i < j < |w[id]|
        ensures KeyBelow(w[id][i].path, w[id][j].path)
      {
        assert Skeleton(v[id][i]) == Skeleton(w[id][i]);
        assert Skeleton(v[id][j]) == Skeleton(w[id][j]);
      }
    }
  }

  /** Where a search stops within a block depends only on the paths. */
  lemma {:induction false} FirstStopSameShape(a: seq<Record>, b: seq<Record>, stop: StopHere)
    requires |a| == |b| && forall k | 0 <= k < |a| :: a[k].path == b[k].path
    ensures FirstStop(a, stop) == FirstStop(b, stop)
  {
    if |a| > 0 && !Stops(stop, a[0].path) {
      FirstStopSameShape(a[1..], b[1..], stop);
    }
  }

  /** Views of the same shape lead the search to the same place. */
  lemma {:induction false} FindSameShape(v: View, w: View, rank: Rank, stop: StopHere, cur: int, bv: Record, bw: Record)
    requires ViewOk(v, rank) && ViewOk(w, rank) && SameShape(v, w) && cur in v
    requires Skeleton(bv) == Skeleton(bw)
    ensures Skeleton(Find(v, rank, stop, cur, bv)) == Skeleton(Find(w, rank, stop, cur, bw))
    decreases rank[cur]
  {
    var a, b := v[cur], w[cur];
    assert forall k | 0 <= k < |a| :: Skeleton(a[k]) == Skeleton(b[k]);
    FirstStopSameShape(a, b, stop);
    var j := FirstStop(a, stop);
    var fa := if j < |a| then a[j] else bv;
    var fb := if j < |b| then b[j] else bw;
    FindStep(v, rank, stop, cur, bv, j, fa);
    FindStep(w, rank, stop, cur, bw, j, fb);
    assert Skeleton(fa) == Skeleton(fb);
    assert j > 0 ==> a[j - 1].indirect == b[j - 1].indirect;
    if j > 0 && a[j - 1].indirect >= 0 {
      FindSameShape(v, w, rank, stop, a[j - 1].indirect, fa, fb);
    }
  }

  /** The view after setting existence and length of the located record `r` (the record setters). */
  function Mark(view: View, r: Record, fileExists: bool, fileLength: int): (w: View)
    requires 0 in view && Located(view, r) && !IsTailRecord(r)
    ensures var o, k := Owner(r), Position(view, r);
      w.Keys == view.Keys && (forall id | id in view && id != o :: w[id] == view[id]) &&
      |w[o]| == |view[o]| && w[o][k] == view[o][k].(fileExists := fileExists, fileLength := fileLength) &&
      forall i | 0 <= i < |view[o]| && i != k :: w[o][i] == view[o][i]
  {
    var o := Owner(r);
    var k := Position(view, r);
    view[o := view[o][k := view[o][k].(fileExists := fileExists, fileLength := fileLength)]]
  }

  /** Setting existence and length changes only that record, in place, and keeps the invariant. */
  lemma MarkKeepsViewOk(view: View, rank: Rank, r: Record, fileExists: bool, fileLength: int)
    requires ViewOk(view, rank) && Located(view, r) && !IsTailRecord(r)
    ensures var w := Mark(view, r, fileExists, fileLength); var o, k := Owner(r), Position(view, r);
      SameShape(view, w) && ViewOk(w, rank) &&
      w[o][k] == r.(fileExists := fileExists, fileLength := fileLength) &&
      Located(w, w[o][k]) && Position(w, w[o][k]) == k
  {
    var w := Mark(view, r, fileExists, fileLength);
    var o, k := Owner(r), Position(view, r);
    assert SameShape(view, w);
    ShapeKeepsViewOk(view, w, rank);
    LocatedAt(w, rank, o, k);
  }

  /** The record `Add` creates for a path it did not find. */
  function NewRecord(owner: int, path: string, fileLength: int): Record {
    Record(Some(owner), Some(path), true, fileLength, -1)
  }

  /** The view after `Add` inserts `path` before the record `r` the search returned. */
  function AddInsert(view: View, r: Record, path: string, fileLength: int): View
    requires 0 in view && Located(view, r)
  {
    var o := Owner(r);
    view[o := InsertBefore(view[o], NewRecord(o, path, fileLength), r)]
  }

  /** A record that sorts before the first record of a list sorts before all of it. */
  lemma BelowAscending(list: seq<Record>, key: Option<string>, bound: Option<string>)
    requires Ascending(list) && |list| > 0 && KeyBelow(key, list[0].path) && AllBelow(list, bound)
    ensures KeyBelow(key, bound)
  {
    KeyBelowTransitive(key, list[0].path, bound);
  }

  /**
   * Inserting a path the search did not find, just before the record the
   * search returned, keeps every block strictly ascending and every child
   * below its parent's next record.
   */
  lemma InsertKeepsViewOk(view: View, rank: Rank, path: string, fileLength: int)
    requires ViewOk(view, rank)
    requires Descent(view, rank, GreaterEqual(path)).path != Some(path)
    ensures var r := Descent(view, rank, GreaterEqual(path));
      Located(view, r) && ViewOk(AddInsert(view, r, path, fileLength), rank)
  {
    var stop := GreaterEqual(path);
    var r := Descent(view, rank, stop);
    DescentPlaced(view, rank, stop);
    var o, k := Owner(r), Position(view, r);
    var list := view[o];
    var x := NewRecord(o, path, fileLength);
    assert BlockOk(view, rank, o);
    if k < |list| {
      assert list[k] == r;
      StoppedIsAbove(path, r.path);
    }
    if k > 0 {
      PassedIsBelow(path, list[k - 1].path);
    }
    assert k == |list| ==> o == 0;
    var nl := InsertBefore(list, x, r);
    assert nl == list[..k] + [x] + list[k..];
    var w := AddInsert(view, r, path, fileLength);
    assert w == view[o := nl];
    forall id | id in w
      ensures BlockOk(w, rank, id)
    {
      if id == o {
        InsertedBlockOk(view, rank, o, k, x, stop);
      } else {
        OtherBlockOk(view, rank, o, k, x, id);
      }
    }
  }

  /** The block that receives the new record stays consistent. */
  lemma InsertedBlockOk(view: View, rank: Rank, o: int, k: int, x: Record, stop: StopHere)
    requires ViewOk(view, rank) && o in view && 0 <= k <= |view[o]|
    requires x.path.Some? && stop == GreaterEqual(x.path.value)
    requires x.block == Some(o) && x.indirect < 0
    requires k == 0 || (KeyBelow(view[o][k - 1].path, x.path) && Passes(view, stop, view[o][k - 1]))
    requires k == |view[o]| || KeyBelow(x.path, view[o][k].path)
    ensures var list := view[o]; BlockOk(view[o := list[..k] + [x] + list[k..]], rank, o)
  {
    var list := view[o];
    var nl := list[..k] + [x] + list[k..];
    var w := view[o := nl];
    assert BlockOk(view, rank, o);
    InsertAtKeepsAscending(list, x, k);
    assert forall i | 0 <= i < |nl| :: nl[i] == if i < k then list[i] else if i == k then x else list[i - 1];
    forall q | 0 <= q < |nl|
      ensures RecordOk(w, rank, o, q)
    {
      if q != k {
        var q0 := if q < k then q else q - 1;
        assert RecordOk(view, rank, o, q0);
        var c := nl[q].indirect;
        if c >= 0 {
          assert c != o;
        }
        if c in w && q + 1 < |nl| {
          assert c != o;
          if q + 1 == k {
            assert Passes(view, stop, list[k - 1]);
            forall i | 0 <= i < |w[c]|
              ensures KeyBelow(w[c][i].path, nl[q + 1].path)
            {
              PassedIsBelow(x.path.value, view[c][i].path);
            }
          } else {
            assert nl[q + 1] == list[q0 + 1];
          }
        }
      }
    }
  }

  /** A block other than the one receiving the new record stays consistent. */
  lemma OtherBlockOk(view: View, rank: Rank, o: int, k: int, x: Record, id: int)
    requires ViewOk(view, rank) && o in view && 0 <= k <= |view[o]| && id in view && id != o
    requires k == |view[o]| ==> o == 0
    requires k == |view[o]| || KeyBelow(x.path, view[o][k].path)
    ensures var list := view[o]; BlockOk(view[o := list[..k] + [x] + list[k..]], rank, id)
  {
    var list := view[o];
    var nl := list[..k] + [x] + list[k..];
    var w := view[o := nl];
    assert BlockOk(view, rank, id);
    forall q | 0 <= q < |w[id]|
      ensures RecordOk(w, rank, id, q)
    {
      assert RecordOk(view, rank, id, q);
      var c := w[id][q].indirect;
      if c == o && q + 1 < |w[id]| {
        var bound := w[id][q + 1].path;
        assert AllBelow(list, bound);
        assert c >= 0 ==> c != 0;
        forall i | 0 <= i < |nl|
          ensures KeyBelow(nl[i].path, bound)
        {
          if i == k {
            assert KeyBelow(list[k].path, bound);
            KeyBelowTransitive(x.path, list[k].path, bound);
          } else {
            assert nl[i] == list[if i < k then i else i - 1];
          }
        }
      }
    }
  }

  /** The rank after a split of a block of rank `h`: every rank from `h` up moves one higher. */
  function Shifted(rank: Rank, h: nat): (r: Rank)
    ensures r.Keys == rank.Keys
  {
    map x | x in rank :: if rank[x] >= h then rank[x] + 1 else rank[x]
  }

  /** The rank after `Split` of block `id` into children `c0` and `c0 + 1`. */
  function SplitRank(rank: Rank, id: int, c0: int): Rank
    requires id in rank
  {
    Shifted(rank, rank[id])[c0 := rank[id]][c0 + 1 := rank[id]]
  }

  /** The view after `Split` of block `id` into the fresh children `c0` and `c0 + 1`. */
  function SplitView(view: View, id: int, c0: int): View
    requires id in view && |view[id]| >= 1
  {
    var list := view[id];
    view[c0 := SplitChild(list, 0, c0)][c0 + 1 := SplitChild(list, 1, c0 + 1)][id := SplitParent(list, c0, c0 + 1)]
  }

  /** A split of a block with two or more records into two fresh ids keeps the invariant. */
  lemma SplitKeepsViewOk(view: View, rank: Rank, id: int, c0: int)
    requires ViewOk(view, rank) && id in view && |view[id]| >= 2
    requires forall x | x in view :: x < c0
    ensures id in rank && ViewOk(SplitView(view, id, c0), SplitRank(rank, id, c0))
  {
    assert BlockOk(view, rank, id);
    var w := SplitView(view, id, c0);
    forall x | x in w
      ensures BlockOk(w, SplitRank(rank, id, c0), x)
    {
      if x == id {
        SplitParentOk(view, rank, id, c0);
      } else if x == c0 || x == c0 + 1 {
        SplitChildOk(view, rank, id, c0, x - c0);
      } else {
        SplitOtherOk(view, rank, id, c0, x);
      }
    }
  }

  /**
   * What a split does to the view and the rank: it adds exactly the two fresh
   * children, which hold the two halves of the records re-owned, leaves the
   * split block with one pointer record per child and every other block as
   * it was, and ranks the children where the split block was.
   */
  lemma SplitFacts(view: View, rank: Rank, id: int, c0: int)
    requires ViewOk(view, rank) && id in view && |view[id]| >= 2
    requires forall x | x in view :: x < c0
    ensures id in rank && 0 < c0
    ensures var list, w := view[id], SplitView(view, id, c0);
      w.Keys == view.Keys + {c0, c0 + 1} &&
      (forall x | x in view && x != id :: w[x] == view[x]) &&
      |w[c0]| == |list| / 2 && |w[c0 + 1]| == |list| - |list| / 2 &&
      (forall i | 0 <= i < |list| / 2 :: w[c0][i] == ReplaceBlock(list[i], c0)) &&
      (forall i | |list| / 2 <= i < |list| :: w[c0 + 1][i - |list| / 2] == ReplaceBlock(list[i], c0 + 1)) &&
      w[id] == [list[0].(indirect := c0), list[|list| / 2].(indirect := c0 + 1)]
    ensures var rk, h := SplitRank(rank, id, c0), rank[id];
      rk.Keys == rank.Keys + {c0, c0 + 1} && rk[c0] == h && rk[c0 + 1] == h &&
      forall x | x in rank && x != c0 && x != c0 + 1 :: rk[x] == if rank[x] >= h then rank[x] + 1 else rank[x]
  {
    assert BlockOk(view, rank, id);
    assert 0 in view;
    SplitRankFacts(rank, id, c0);
    SplitViewFacts(view, id, c0);
  }

  /** The rank half of `SplitFacts`. */
  lemma SplitRankFacts(rank: Rank, id: int, c0: int)
    requires id in rank
    ensures var rk, h := SplitRank(rank, id, c0), rank[id];
      rk.Keys == rank.Keys + {c0, c0 + 1} && rk[c0] == h && rk[c0 + 1] == h &&
      forall x | x in rank && x != c0 && x != c0 + 1 :: rk[x] == if rank[x] >= h then rank[x] + 1 else rank[x]
  {
  }

  /** The view half of `SplitFacts`. */
  lemma SplitViewFacts(view: View, id: int, c0: int)
    requires id in view && |view[id]| >= 2 && id < c0
    ensures var list, w := view[id], SplitView(view, id, c0);
      w.Keys == view.Keys + {c0, c0 + 1} &&
      (forall x | x in view && x != id && x != c0 && x != c0 + 1 :: w[x] == view[x]) &&
      |w[c0]| == |list| / 2 && |w[c0 + 1]| == |list| - |list| / 2 &&
      (forall i | 0 <= i < |list| / 2 :: w[c0][i] == ReplaceBlock(list[i], c0)) &&
      (forall i | |list| / 2 <= i < |list| :: w[c0 + 1][i - |list| / 2] == ReplaceBlock(list[i], c0 + 1)) &&
      w[id] == [list[0].(indirect := c0), list[|list| / 2].(indirect := c0 + 1)]
  {
    var list, n, m := view[id], |view[id]|, |view[id]| / 2;
    var w, a, b := SplitView(view, id, c0), SplitChild(list, 0, c0), SplitChild(list, 1, c0 + 1);
    assert w[c0] == a && w[c0 + 1] == b && w[id] == SplitParent(list, c0, c0 + 1);
    forall i | m <= i < n
      ensures b[i - m] == ReplaceBlock(list[i], c0 + 1)
    {
      assert b[i - m] == ReplaceBlock(list[m + (i - m)], c0 + 1);
    }
  }

  /** After a split, the split block holds two ascending pointer records to its children. */
  lemma SplitParentOk(view: View, rank: Rank, id: int, c0: int)
    requires ViewOk(view, rank) && id in view && |view[id]| >= 2
    requires forall x | x in view :: x < c0
    ensures id in rank && BlockOk(SplitView(view, id, c0), SplitRank(rank, id, c0), id)
  {
    SplitFacts(view, rank, id, c0);
    var list, m := view[id], |view[id]| / 2;
    var w, rk := SplitView(view, id, c0), SplitRank(rank, id, c0);
    assert BlockOk(view, rank, id);
    SplitParentAscending(list, c0, c0 + 1);
    assert SplitParent(list, c0, c0 + 1) == w[id];
    assert RecordOk(view, rank, id, 0) && RecordOk(view, rank, id, m);
    forall i | 0 <= i < |w[c0]|
      ensures KeyBelow(w[c0][i].path, w[id][1].path)
    {
      assert KeyBelow(list[i].path, list[m].path);
    }
    assert RecordOk(w, rk, id, 0);
    assert RecordOk(w, rk, id, 1);
  }

  /** After a split, child `i` holds its range of the old records, ascending and consistent. */
  lemma SplitChildOk(view: View, rank: Rank, id: int, c0: int, i: int)
    requires ViewOk(view, rank) && id in view && |view[id]| >= 2
    requires forall x | x in view :: x < c0
    requires 0 <= i < 2
    ensures id in rank && BlockOk(SplitView(view, id, c0), SplitRank(rank, id, c0), c0 + i)
  {
    var list, m := view[id], |view[id]| / 2;
    var w, rk := SplitView(view, id, c0), SplitRank(rank, id, c0);
    var x := c0 + i;
    var lo := if i == 0 then 0 else m;
    assert BlockOk(view, rank, id) && 0 <= id < c0;
    var ch := SplitChild(list, i, x);
    assert x in w && w[x] == ch && lo + |ch| <= |list|;
    SplitChildAscending(list, i, x);
    forall k | lo <= k < lo + |ch| && list[k].indirect >= 0
      ensures ChildCarried(view, w, rk, x, list[k].indirect)
    {
      assert RecordOk(view, rank, id, k);
      SplitKeepsChild(view, rank, id, c0, x, list[k].indirect);
    }
    assert forall g | g in w :: g >= 0 by {
      forall g | g in w
        ensures g >= 0
      {
        if g in view {
          assert BlockOk(view, rank, g);
        }
      }
    }
    ReownedBlockOk(w, rk, x, view, rank, id, lo);
    assert id in rank && x in rk && Ascending(w[x]);
  }

  /** Child `g` of an old block is still a block, unchanged, and ranks below block `x`. */
  predicate ChildCarried(view: View, w: View, rk: Rank, x: int, g: int) {
    g != 0 && g in view && g in w && w[g] == view[g] && x in rk && g in rk && rk[g] < rk[x]
  }

  /**
   * A block holding a range of the records of a consistent block, re-owned, is
   * consistent when every child in the range is carried over below it.
   */
  lemma ReownedBlockOk(w: View, rk: Rank, x: int, view: View, rank: Rank, id: int, lo: int)
    requires id in view && 0 <= id && BlockOk(view, rank, id)
    requires x in w && 0 <= lo && lo + |w[x]| <= |view[id]|
    requires forall q | 0 <= q < |w[x]| :: w[x][q] == ReplaceBlock(view[id][lo + q], x)
    requires forall k | lo <= k < lo + |w[x]| && view[id][k].indirect >= 0 :: ChildCarried(view, w, rk, x, view[id][k].indirect)
    requires forall g | g in w :: g >= 0
    ensures forall q | 0 <= q < |w[x]| :: RecordOk(w, rk, x, q)
  {
    forall q | 0 <= q < |w[x]|
      ensures RecordOk(w, rk, x, q)
    {
      var k := lo + q;
      assert RecordOk(view, rank, id, k);
      assert q + 1 < |w[x]| ==> w[x][q + 1] == ReplaceBlock(view[id][k + 1], x);
    }
  }

  /** A child of the split block is untouched by the split and keeps a rank below the new children's. */
  lemma SplitKeepsChild(view: View, rank: Rank, id: int, c0: int, x: int, g: int)
    requires ViewOk(view, rank) && id in view && |view[id]| >= 2
    requires forall y | y in view :: y < c0
    requires (x == c0 || x == c0 + 1) && (g >= 0 ==> ChildOk(view, rank, id, g))
    ensures var w, rk := SplitView(view, id, c0), SplitRank(rank, id, c0);
      g >= 0 ==> g != 0 && g in w && w[g] == view[g] && g in rk && x in rk && rk[g] < rk[x]
  {
  }

  /** After a split, every other block keeps its records and stays consistent. */
  lemma SplitOtherOk(view: View, rank: Rank, id: int, c0: int, x: int)
    requires ViewOk(view, rank) && id in view && |view[id]| >= 2
    requires forall y | y in view :: y < c0
    requires x in view && x != id
    ensures id in rank && BlockOk(SplitView(view, id, c0), SplitRank(rank, id, c0), x)
  {
    SplitFacts(view, rank, id, c0);
    var list, m := view[id], |view[id]| / 2;
    var w, rk := SplitView(view, id, c0), SplitRank(rank, id, c0);
    assert BlockOk(view, rank, x);
    forall q | 0 <= q < |w[x]|
      ensures RecordOk(w, rk, x, q)
    {
      assert RecordOk(view, rank, x, q);
      var c := w[x][q].indirect;
      assert c >= 0 ==> ChildOk(view, rank, x, c);
      assert w[id][0].path == list[0].path && w[id][1].path == list[m].path;
      assert c == id && q + 1 < |w[x]| ==> AllBelow(list, w[x][q + 1].path);
    }
  }

  /** A fresh, empty block of rank 0 keeps the invariant. */
  lemma AddEmptyKeepsViewOk(view: View, rank: Rank, c: int)
    requires ViewOk(view, rank) && c !in view && 0 < c
    ensures ViewOk(view[c := []], rank[c := 0])
  {
    var w, rk := view[c := []], rank[c := 0];
    forall x | x in w
      ensures BlockOk(w, rk, x)
    {
      if x != c {
        assert BlockOk(view, rank, x);
        forall q | 0 <= q < |w[x]|
          ensures RecordOk(w, rk, x, q)
        {
          assert RecordOk(view, rank, x, q);
        }
      }
    }
  }

  /**
   * Soft delete and resurrection: after `Remove(p)` marks the record found for
   * `p`, the next search for `p` returns the same record, now not existing with
   * length -1, and the `Add(p, n)` that follows marks that same record again.
   */
  lemma RemoveThenAddRestores(view: View, rank: Rank, p: string, n: int)
    requires ViewOk(view, rank)
    requires Descent(view, rank, GreaterEqual(p)).path == Some(p)
    ensures var r := Descent(view, rank, GreaterEqual(p));
      Located(view, r) &&
      var v1 := Mark(view, r, false, -1);
      ViewOk(v1, rank) &&
      var r1 := Descent(v1, rank, GreaterEqual(p));
      r1 == r.(fileExists := false, fileLength := -1) &&
      Located(v1, r1) && Mark(v1, r1, true, n) == Mark(view, r, true, n)
  {
    var stop := GreaterEqual(p);
    var r := Descent(view, rank, stop);
    DescentPlaced(view, rank, stop);
    MarkKeepsViewOk(view, rank, r, false, -1);
    var v1 := Mark(view, r, false, -1);
    var o, k := Owner(r), Position(view, r);
    FindSameShape(view, v1, rank, stop, 0, TailRecord, TailRecord);
    var r1 := Descent(v1, rank, stop);
    DescentPlaced(v1, rank, stop);
    assert Skeleton(r1) == Skeleton(r);
    assert r1 != TailRecord;
    assert Owner(r1) == o;
    assert v1[o][k] == r.(fileExists := false, fileLength := -1);
    assert BlockOk(v1, rank, o);
    IndexOfAscending(v1[o], k);
    assert IndexOfPath(v1[o], p) == k;
    assert r1 == v1[o][k];
    assert Position(v1, r1) == k;
    assert Located(v1, r1);
    assert Mark(v1, r1, true, n) == v1[o := v1[o][k := v1[o][k].(fileExists := true, fileLength := n)]];
    assert v1[o][k := v1[o][k].(fileExists := true, fileLength := n)] == view[o][k := view[o][k].(fileExists := true, fileLength := n)];
    assert Mark(v1, r1, true, n) == Mark(view, r, true, n);
  }

  /**
   * The view after `Add(path, fileLength)`, before any split: the record the
   * search for `path` returns is marked existing with the new length when it
   * has that path; otherwise a new record for `path` goes just before it, in
   * the block that owns it (the root for the tail record).
   */
  function AddView(view: View, rank: Rank, path: string, fileLength: int): (w: View)
    requires ViewOk(view, rank)
    ensures var r := Descent(view, rank, GreaterEqual(path));
      Located(view, r) && Owner(r) in view && w.Keys == view.Keys && ViewOk(w, rank) &&
      |w[Owner(r)]| == |view[Owner(r)]| + (if r.path == Some(path) then 0 else 1)
  {
    var r := Descent(view, rank, GreaterEqual(path));
    DescentPlaced(view, rank, GreaterEqual(path));
    if r.path == Some(path) then
      MarkKeepsViewOk(view, rank, r, true, fileLength);
      Mark(view, r, true, fileLength)
    else
      InsertKeepsViewOk(view, rank, path, fileLength);
      AddInsert(view, r, path, fileLength)
  }

  /**
   * The view after `Remove(p)`: the record the search for `p` returns is
   * marked not existing with length -1 when it has path `p`; otherwise
   * nothing changes.
   */
  function RemoveView(view: View, rank: Rank, p: string): (w: View)
    requires ViewOk(view, rank)
    ensures SameShape(view, w) && ViewOk(w, rank)
  {
    var r := Descent(view, rank, GreaterEqual(p));
    DescentPlaced(view, rank, GreaterEqual(p));
    if r.path == Some(p) then
      MarkKeepsViewOk(view, rank, r, false, -1);
      Mark(view, r, false, -1)
    else
      view
  }

  /** `Add(p, n)` right after `Remove(p)` leaves the tree exactly as `Add(p, n)` alone would. */
  lemma AddAfterRemove(view: View, rank: Rank, p: string, n: int)
    requires ViewOk(view, rank)
    ensures AddView(RemoveView(view, rank, p), rank, p, n) == AddView(view, rank, p, n)
  {
    if Descent(view, rank, GreaterEqual(p)).path == Some(p) {
      RemoveThenAddRestores(view, rank, p, n);
    }
  }
}
