/**
 * The manifest read as a map from paths to (existence, length): `Lookup` is
 * what `FindFirstEqual` reports, and the lemmas here show that `Add`,
 * `Remove` and `Split` change that map exactly as a map update would.
 *
 * The proofs compare the search in the view before an edit with the search in
 * the view after it, block by block along the descent: outside the edited
 * block both scan the same records, and inside it the cases are worked out.
 */
module Lookups {
  import opened Wrappers
  import opened Paths
  import opened Records
  import opened Blocks
  import opened Tree
  import opened TreeEdits

  /** What the manifest keeps about a file. */
  datatype FileInfo = FileInfo(fileExists: bool, fileLength: int)

  /** What record `r` says about path `p`: nothing unless it is the record of `p`. */
  function InfoAt(r: Record, p: string): Option<FileInfo> {
    if r.path == Some(p) then Some(FileInfo(r.fileExists, r.fileLength)) else None
  }

  /** `FindFirstEqual(p)` read as a lookup: the search for `p` returns the record of `p`, or nothing is kept. */
  function Lookup(view: View, rank: Rank, p: string): Option<FileInfo>
    requires ViewOk(view, rank)
  {
    InfoAt(Descent(view, rank, GreaterEqual(p)), p)
  }

  /** An empty manifest (an empty root) keeps nothing. */
  lemma EmptyFindsNothing(p: string)
    ensures ViewOk(map[0 := []], map[0 := 0]) && Lookup(map[0 := []], map[0 := 0], p) == None
  {
    assert BlockOk(map[0 := []], map[0 := 0], 0);
  }

  // ---------------------------------------------------------------- scanning

  /** The first stop of a scan is the index before which every record passes and at which one stops. */
  lemma FirstStopAt(list: seq<Record>, stop: StopHere, j: int)
    requires 0 <= j <= |list|
    requires forall i | 0 <= i < j :: !Stops(stop, list[i].path)
    requires j < |list| ==> Stops(stop, list[j].path)
    ensures FirstStop(list, stop) == j
  {
  }

  /** In an ascending block, a search stops at every record from its first stop on. */
  lemma StopsFrom(list: seq<Record>, stop: StopHere, i: int)
    requires Ascending(list) && FirstStop(list, stop) <= i < |list|
    ensures Stops(stop, list[i].path)
  {
    var j := FirstStop(list, stop);
    if j < i {
      assert KeyBelow(list[j].path, list[i].path);
      match stop
      case GreaterThan(p) =>
        BelowTransitive(p, list[j].path.value, list[i].path.value);
      case GreaterEqual(p) =>
        if !Stops(stop, list[i].path) {
          BelowTransitive(list[j].path.value, list[i].path.value, p);
        }
    }
  }

  /** In an ascending block, a search for `p` passes every record before one it passes. */
  lemma PassesBefore(list: seq<Record>, p: string, k: int)
    requires Ascending(list) && 0 < k <= |list| && !Stops(GreaterEqual(p), list[k - 1].path)
    ensures forall i | 0 <= i < k :: !Stops(GreaterEqual(p), list[i].path)
  {
    forall i | 0 <= i < k - 1
      ensures !Stops(GreaterEqual(p), list[i].path)
    {
      assert KeyBelow(list[i].path, list[k - 1].path);
      BelowTransitive(list[i].path.value, list[k - 1].path.value, p);
    }
  }

  /** Where the search stops after `x` is inserted at index `k`, at or before the first stop. */
  lemma FirstStopInserted(list: seq<Record>, k: int, x: Record, stop: StopHere)
    requires 0 <= k <= |list|
    ensures var j, nl := FirstStop(list, stop), list[..k] + [x] + list[k..];
      FirstStop(nl, stop) == if j < k then j else if Stops(stop, x.path) then k else j + 1
  {
    var j, nl := FirstStop(list, stop), list[..k] + [x] + list[k..];
    assert forall i | 0 <= i < |nl| :: nl[i] == if i < k then list[i] else if i == k then x else list[i - 1];
    if j < k {
      FirstStopAt(nl, stop, j);
    } else if Stops(stop, x.path) {
      FirstStopAt(nl, stop, k);
    } else {
      FirstStopAt(nl, stop, j + 1);
    }
  }

  /** `z` is `list` from index `lo` on, every record re-owned by `c`. */
  predicate ReownedFrom(list: seq<Record>, lo: int, z: seq<Record>, c: int) {
    0 <= lo <= |list| && |z| == |list| - lo && forall i | 0 <= i < |z| :: z[i] == ReplaceBlock(list[lo + i], c)
  }

  /** The rest of a block from `lo` on, re-owned, stops a search that passed `lo` records at the same record. */
  lemma ReownedFirstStop(list: seq<Record>, lo: int, z: seq<Record>, c: int, stop: StopHere)
    requires ReownedFrom(list, lo, z, c) && lo <= FirstStop(list, stop)
    ensures FirstStop(z, stop) == FirstStop(list, stop) - lo
  {
    FirstStopAt(z, stop, FirstStop(list, stop) - lo);
  }

  /** `a` is the first `m` records of `list`, every record re-owned by `c`. */
  predicate PrefixReowned(list: seq<Record>, m: int, a: seq<Record>, c: int) {
    0 <= m <= |list| && |a| == m && forall i | 0 <= i < m :: a[i] == ReplaceBlock(list[i], c)
  }

  /** The first `m` records of a block, re-owned, stop a search that stops among them (or at `m`) at the same index. */
  lemma PrefixFirstStop(list: seq<Record>, m: int, a: seq<Record>, c: int, stop: StopHere)
    requires PrefixReowned(list, m, a, c) && FirstStop(list, stop) <= m
    ensures FirstStop(a, stop) == FirstStop(list, stop)
  {
    FirstStopAt(a, stop, FirstStop(list, stop));
  }

  // ------------------------------------------------- searches that pass all

  /**
   * The search from `cur` stops nowhere: it passes every record of `cur`, and
   * of the child of the last record, and so on down.
   */
  predicate SearchPasses(view: View, rank: Rank, stop: StopHere, cur: int)
    requires ViewOk(view, rank) && cur in view
    decreases rank[cur]
  {
    var list := view[cur];
    FirstStop(list, stop) == |list| &&
    (|list| == 0 || list[|list| - 1].indirect < 0 ||
     (assert RecordOk(view, rank, cur, |list| - 1);
      SearchPasses(view, rank, stop, list[|list| - 1].indirect)))
  }

  /** A search that stops nowhere returns its boundary. */
  lemma {:induction false} PassesReturnsBoundary(view: View, rank: Rank, stop: StopHere, cur: int, b: Record)
    requires ViewOk(view, rank) && cur in view && SearchPasses(view, rank, stop, cur)
    ensures Find(view, rank, stop, cur, b) == b
    decreases rank[cur]
  {
    var list := view[cur];
    if |list| > 0 && list[|list| - 1].indirect >= 0 {
      assert RecordOk(view, rank, cur, |list| - 1);
      PassesReturnsBoundary(view, rank, stop, list[|list| - 1].indirect, b);
    }
  }

  /** What a search for `p` passes entirely, a search for a larger `q` passes too. */
  lemma {:induction false} PassesFurther(view: View, rank: Rank, p: string, q: string, cur: int)
    requires ViewOk(view, rank) && cur in view && Below(p, q)
    requires SearchPasses(view, rank, GreaterEqual(p), cur)
    ensures SearchPasses(view, rank, GreaterEqual(q), cur)
    decreases rank[cur]
  {
    var list := view[cur];
    forall i | 0 <= i < |list|
      ensures !Stops(GreaterEqual(q), list[i].path)
    {
      assert !Stops(GreaterEqual(p), list[i].path);
      BelowTransitive(list[i].path.value, p, q);
    }
    FirstStopAt(list, GreaterEqual(q), |list|);
    if |list| > 0 && list[|list| - 1].indirect >= 0 {
      assert RecordOk(view, rank, cur, |list| - 1);
      PassesFurther(view, rank, p, q, list[|list| - 1].indirect);
    }
  }

  /**
   * `r` is located, and the search that found it went past the record just
   * before it together with that record's whole subtree.
   */
  predicate Settled(view: View, rank: Rank, stop: StopHere, r: Record)
    requires ViewOk(view, rank)
  {
    Located(view, r) &&
    var o, k := Owner(r), Position(view, r);
    (k == 0 || view[o][k - 1].indirect < 0 ||
     (view[o][k - 1].indirect in view && SearchPasses(view, rank, stop, view[o][k - 1].indirect)))
  }

  /** The search either stops nowhere and returns its boundary, or returns a settled record of a block. */
  lemma {:induction false} FindSettled(view: View, rank: Rank, stop: StopHere, cur: int, b: Record)
    requires ViewOk(view, rank) && cur in view
    ensures var res := Find(view, rank, stop, cur, b);
      (SearchPasses(view, rank, stop, cur) && res == b) ||
      (res.block.Some? && Settled(view, rank, stop, res))
    decreases rank[cur]
  {
    var list := view[cur];
    var j := FirstStop(list, stop);
    var found := if j < |list| then list[j] else b;
    if j < |list| {
      LocatedAt(view, rank, cur, j);
    }
    if j > 0 && list[j - 1].indirect >= 0 {
      assert RecordOk(view, rank, cur, j - 1);
      FindSettled(view, rank, stop, list[j - 1].indirect, found);
    }
  }

  /** The search from the root returns a settled record. */
  lemma DescentSettled(view: View, rank: Rank, stop: StopHere)
    requires ViewOk(view, rank)
    ensures Settled(view, rank, stop, Descent(view, rank, stop))
  {
    FindSettled(view, rank, stop, 0, TailRecord);
    var r := Descent(view, rank, stop);
    var root := view[0];
    if r.block.None? && |root| > 0 {
      assert r == TailRecord && Position(view, r) == |root|;
      assert BlockOk(view, rank, 0) && RecordOk(view, rank, 0, |root| - 1);
    }
  }

  /** A search below the rank of block `o` never sees `o`, so replacing `o` does not affect it. */
  lemma {:induction false} FindBelow(view: View, w: View, rank: Rank, stop: StopHere, o: int, l: seq<Record>, cur: int, b: Record)
    requires ViewOk(view, rank) && ViewOk(w, rank) && o in view && w == view[o := l]
    requires cur in view && cur in rank && o in rank && rank[cur] < rank[o]
    ensures Find(w, rank, stop, cur, b) == Find(view, rank, stop, cur, b)
    decreases rank[cur]
  {
    var list := view[cur];
    var j := FirstStop(list, stop);
    if j > 0 && list[j - 1].indirect >= 0 {
      assert RecordOk(view, rank, cur, j - 1);
      FindBelow(view, w, rank, stop, o, l, list[j - 1].indirect, if j < |list| then list[j] else b);
    }
  }

  // ----------------------------------------------------------- marking

  /**
   * Setting existence and length of a located record `x` changes what a
   * search returns only when it returns `x` itself, which it then returns
   * with the new fields.
   */
  lemma MarkedDescent(view: View, rank: Rank, x: Record, fileExists: bool, fileLength: int, stop: StopHere)
    requires ViewOk(view, rank) && Located(view, x) && !IsTailRecord(x)
    ensures ViewOk(Mark(view, x, fileExists, fileLength), rank)
    ensures var s := Descent(view, rank, stop);
      Descent(Mark(view, x, fileExists, fileLength), rank, stop) ==
        if Owner(s) == Owner(x) && s.path == x.path then x.(fileExists := fileExists, fileLength := fileLength) else s
  {
    MarkKeepsViewOk(view, rank, x, fileExists, fileLength);
    var w := Mark(view, x, fileExists, fileLength);
    var s := Descent(view, rank, stop);
    FindSameShape(view, w, rank, stop, 0, TailRecord, TailRecord);
    var s' := Descent(w, rank, stop);
    DescentPlaced(view, rank, stop);
    DescentPlaced(w, rank, stop);
    assert Skeleton(s) == Skeleton(s');
    if s.path.Some? {
      var o, k := Owner(x), Position(view, x);
      var o', k' := Owner(s), Position(view, s);
      assert BlockOk(view, rank, o');
      LocatedAt(view, rank, o', k');
      LocatedAt(w, rank, o', k');
      assert w[o'][k'].path == s.path;
      assert s' == w[o'][k'];
      if o' == o && s.path == x.path {
        assert k' == k;
      } else if o' == o {
        assert view[o][k].path == x.path;
        assert k' != k;
      }
    }
  }

  // ------------------------------------------------------------ inserting

  /** The block `o` with `x` inserted at index `k`. */
  function Inserted(view: View, o: int, k: int, x: Record): View
    requires o in view && 0 <= k <= |view[o]|
  {
    view[o := view[o][..k] + [x] + view[o][k..]]
  }

  /**
   * Where `Add` inserts a record `x` for a new path `p`: at index `k` of block
   * `o`, where the search for `p` passed every earlier record, stopped at the
   * record at `k` (past the end only in the root), and passed the whole
   * subtree of the record before it.
   */
  predicate InsertSite(view: View, rank: Rank, o: int, k: int, x: Record, p: string)
    requires ViewOk(view, rank)
  {
    o in view && 0 <= k <= |view[o]| && (k == |view[o]| ==> o == 0) &&
    x.path == Some(p) && x.indirect < 0 &&
    (forall i | 0 <= i < k :: !Stops(GreaterEqual(p), view[o][i].path)) &&
    (k < |view[o]| ==> Stops(GreaterEqual(p), view[o][k].path)) &&
    (k > 0 && view[o][k - 1].indirect >= 0 ==>
      view[o][k - 1].indirect in view && SearchPasses(view, rank, GreaterEqual(p), view[o][k - 1].indirect))
  }

  /** The search for a path it did not find ends at an insert site. */
  lemma InsertSiteHolds(view: View, rank: Rank, p: string, n: int)
    requires ViewOk(view, rank) && Descent(view, rank, GreaterEqual(p)).path != Some(p)
    ensures var r := Descent(view, rank, GreaterEqual(p));
      Located(view, r) && InsertSite(view, rank, Owner(r), Position(view, r), NewRecord(Owner(r), p, n), p)
  {
    var stop := GreaterEqual(p);
    var r := Descent(view, rank, stop);
    DescentPlaced(view, rank, stop);
    DescentSettled(view, rank, stop);
    var o, k := Owner(r), Position(view, r);
    var list := view[o];
    assert BlockOk(view, rank, o);
    if k > 0 {
      PassesBefore(list, p, k);
    }
    if k < |list| {
      assert list[k] == r;
    }
  }

  /** The insertion `Add` makes for a path it did not find happens at an insert site. */
  lemma InsertSiteOfDescent(view: View, rank: Rank, p: string, n: int)
    requires ViewOk(view, rank) && Descent(view, rank, GreaterEqual(p)).path != Some(p)
    ensures var r := Descent(view, rank, GreaterEqual(p));
      Located(view, r) &&
      var o, k, x := Owner(r), Position(view, r), NewRecord(Owner(r), p, n);
      InsertSite(view, rank, o, k, x, p) &&
      AddInsert(view, r, p, n) == Inserted(view, o, k, x) &&
      ViewOk(Inserted(view, o, k, x), rank)
  {
    var r := Descent(view, rank, GreaterEqual(p));
    InsertSiteHolds(view, rank, p, n);
    InsertKeepsViewOk(view, rank, p, n);
    var o, k, x := Owner(r), Position(view, r), NewRecord(Owner(r), p, n);
    assert InsertBefore(view[o], x, r) == view[o][..k] + [x] + view[o][k..];
  }

  /**
   * Along the descent for `p`, the search in the view with `x` inserted ends
   * at `x`: above block `o` it makes the same moves, carrying `x` wherever the
   * original search carried the record `r` it returned.
   */
  lemma {:induction false} InsertFindsNew(view: View, rank: Rank, o: int, k: int, x: Record, p: string, r: Record, cur: int, b: Record, b': Record)
    requires ViewOk(view, rank) && InsertSite(view, rank, o, k, x, p) && ViewOk(Inserted(view, o, k, x), rank)
    requires r == TailRecord || r.block == Some(o)
    requires cur in view && Find(view, rank, GreaterEqual(p), cur, b) == r
    requires cur != o ==> b' == if b == r then x else b
    ensures Find(Inserted(view, o, k, x), rank, GreaterEqual(p), cur, b') == x
    decreases rank[cur], 1
  {
    if cur != o {
      InsertFindsNewAbove(view, rank, o, k, x, p, r, cur, b, b');
    } else {
      InsertFindsNewHere(view, rank, o, k, x, p, b');
    }
  }

  /** `InsertFindsNew` in a block other than `o`: both searches scan the same records, carrying `x` for `r`. */
  lemma {:induction false} InsertFindsNewAbove(view: View, rank: Rank, o: int, k: int, x: Record, p: string, r: Record, cur: int, b: Record, b': Record)
    requires ViewOk(view, rank) && InsertSite(view, rank, o, k, x, p) && ViewOk(Inserted(view, o, k, x), rank)
    requires r == TailRecord || r.block == Some(o)
    requires cur in view && cur != o && Find(view, rank, GreaterEqual(p), cur, b) == r
    requires b' == if b == r then x else b
    ensures Find(Inserted(view, o, k, x), rank, GreaterEqual(p), cur, b') == x
    decreases rank[cur], 0
  {
    var w, stop, list := Inserted(view, o, k, x), GreaterEqual(p), view[cur];
    var j := FirstStop(list, stop);
    var g := if j > 0 then list[j - 1].indirect else -1;
    var found, found' := (if j < |list| then list[j] else b), (if j < |list| then list[j] else b');
    UntouchedInserted(view, o, k, x, cur);
    assert j < |list| ==> found.block == Some(cur) by {
      OwnedRecords(view, rank, cur);
    }
    FindStep(view, rank, stop, cur, b, j, found);
    FindStep(w, rank, stop, cur, b', j, found');
    if g >= 0 {
      InsertFindsNew(view, rank, o, k, x, p, r, g, found, found');
    }
  }

  /** `InsertFindsNew` in block `o`: the search stops at `x`, after a subtree it passes entirely. */
  lemma InsertFindsNewHere(view: View, rank: Rank, o: int, k: int, x: Record, p: string, b': Record)
    requires ViewOk(view, rank) && InsertSite(view, rank, o, k, x, p) && ViewOk(Inserted(view, o, k, x), rank)
    ensures Find(Inserted(view, o, k, x), rank, GreaterEqual(p), o, b') == x
  {
    var w, stop, list := Inserted(view, o, k, x), GreaterEqual(p), view[o];
    var nl := w[o];
    var g := if k > 0 then list[k - 1].indirect else -1;
    BelowIrreflexive(p);
    FirstStopInserted(list, k, x, stop);
    InsertedAt(list, k, x, k);
    InsertedAt(list, k, x, k - 1);
    FindStep(w, rank, stop, o, b', k, x);
    if g >= 0 {
      assert RecordOk(view, rank, o, k - 1) by {
        RecordOfViewOk(view, rank, o, k - 1);
      }
      FindBelow(view, w, rank, stop, o, nl, g, x);
      PassesReturnsBoundary(view, rank, stop, g, x);
    }
  }

  /** The records of a block with `x` inserted at index `k`. */
  lemma InsertedAt(list: seq<Record>, k: int, x: Record, i: int)
    requires 0 <= k <= |list|
    ensures var nl := list[..k] + [x] + list[k..];
      |nl| == |list| + 1 && (0 <= i < k ==> nl[i] == list[i]) && (i == k ==> nl[i] == x) &&
      (k < i <= |list| ==> nl[i] == list[i - 1])
  {
  }

  /** Inserting into block `o` leaves every other block as it was. */
  lemma UntouchedInserted(view: View, o: int, k: int, x: Record, cur: int)
    requires o in view && 0 <= k <= |view[o]| && cur in view && cur != o
    ensures cur in Inserted(view, o, k, x) && Inserted(view, o, k, x)[cur] == view[cur]
  {
  }

  /**
   * The search for any other path `q` reports the same about `q` in the view
   * with `x` inserted as in the original view, given boundaries that report
   * the same about `q`.
   */
  lemma {:induction false} InsertKeepsInfo(view: View, rank: Rank, o: int, k: int, x: Record, p: string, q: string, cur: int, b: Record, b': Record)
    requires ViewOk(view, rank) && InsertSite(view, rank, o, k, x, p) && ViewOk(Inserted(view, o, k, x), rank)
    requires q != p && cur in view && (cur == 0 ==> b == TailRecord)
    requires InfoAt(b, q) == InfoAt(b', q)
    ensures InfoAt(Find(view, rank, GreaterEqual(q), cur, b), q) ==
      InfoAt(Find(Inserted(view, o, k, x), rank, GreaterEqual(q), cur, b'), q)
    decreases rank[cur], 2
  {
    if cur != o {
      InsertKeepsInfoAbove(view, rank, o, k, x, p, q, cur, b, b');
    } else {
      BelowTotal(p, q);
      if Below(q, p) {
        InsertKeepsInfoBefore(view, rank, o, k, x, p, q, b, b');
      } else {
        InsertKeepsInfoAfter(view, rank, o, k, x, p, q, b, b');
      }
    }
  }

  /** `InsertKeepsInfo` in a block other than `o`: both searches scan the same records. */
  lemma {:induction false} InsertKeepsInfoAbove(view: View, rank: Rank, o: int, k: int, x: Record, p: string, q: string, cur: int, b: Record, b': Record)
    requires ViewOk(view, rank) && InsertSite(view, rank, o, k, x, p) && ViewOk(Inserted(view, o, k, x), rank)
    requires q != p && cur in view && cur != o && InfoAt(b, q) == InfoAt(b', q)
    ensures InfoAt(Find(view, rank, GreaterEqual(q), cur, b), q) ==
      InfoAt(Find(Inserted(view, o, k, x), rank, GreaterEqual(q), cur, b'), q)
    decreases rank[cur], 0
  {
    var w, stop, list := Inserted(view, o, k, x), GreaterEqual(q), view[cur];
    var j := FirstStop(list, stop);
    var g := if j > 0 then list[j - 1].indirect else -1;
    var found, found' := (if j < |list| then list[j] else b), (if j < |list| then list[j] else b');
    UntouchedInserted(view, o, k, x, cur);
    FindStep(view, rank, stop, cur, b, j, found);
    FindStep(w, rank, stop, cur, b', j, found');
    if g >= 0 {
      InsertKeepsInfo(view, rank, o, k, x, p, q, g, found, found');
    }
  }

  /** A record at which the search for `p` stops also stops the search for any `q` before `p`. */
  lemma StopsEarlier(key: Option<string>, p: string, q: string)
    requires Below(q, p) && Stops(GreaterEqual(p), key)
    ensures Stops(GreaterEqual(q), key)
  {
    if !Stops(GreaterEqual(q), key) {
      BelowTransitive(key.value, q, p);
    }
  }

  /** Records the search for `p` passes, the search for any `q` after `p` passes too. */
  lemma PassesLater(list: seq<Record>, k: int, p: string, q: string)
    requires Below(p, q) && 0 <= k <= |list| && forall i | 0 <= i < k :: !Stops(GreaterEqual(p), list[i].path)
    ensures forall i | 0 <= i < k :: !Stops(GreaterEqual(q), list[i].path)
  {
    forall i | 0 <= i < k
      ensures !Stops(GreaterEqual(q), list[i].path)
    {
      assert !Stops(GreaterEqual(p), list[i].path);
      BelowTransitive(list[i].path.value, p, q);
    }
  }

  /** `InsertKeepsInfo` in the block that receives `x`, for a `q` before `p`: `x` or a later record stops the search. */
  lemma {:induction false} InsertKeepsInfoBefore(view: View, rank: Rank, o: int, k: int, x: Record, p: string, q: string, b: Record, b': Record)
    requires ViewOk(view, rank) && InsertSite(view, rank, o, k, x, p) && ViewOk(Inserted(view, o, k, x), rank)
    requires Below(q, p) && o in rank && (o == 0 ==> b == TailRecord)
    requires InfoAt(b, q) == InfoAt(b', q)
    ensures InfoAt(Find(view, rank, GreaterEqual(q), o, b), q) ==
      InfoAt(Find(Inserted(view, o, k, x), rank, GreaterEqual(q), o, b'), q)
    decreases rank[o], 0
  {
    var w, stop, list := Inserted(view, o, k, x), GreaterEqual(q), view[o];
    var nl := w[o];
    var j := FirstStop(list, stop);
    var g := if j > 0 then list[j - 1].indirect else -1;
    BelowAsymmetric(q, p);
    assert k < |list| ==> Stops(stop, list[k].path) by {
      if k < |list| {
        StopsEarlier(list[k].path, p, q);
      }
    }
    FirstStopInserted(list, k, x, stop);
    InsertedAt(list, k, x, j);
    InsertedAt(list, k, x, j - 1);
    var found, found' := (if j < |list| then list[j] else b), nl[j];
    assert InfoAt(found, q) == InfoAt(found', q);
    FindStep(view, rank, stop, o, b, j, found);
    FindStep(w, rank, stop, o, b', j, found');
    if g >= 0 {
      InsertKeepsInfo(view, rank, o, k, x, p, q, g, found, found');
    }
  }

  /** A search for a `q` after `p` passes the records before an insert site for `p`, and `x` as well. */
  lemma FirstStopAfterSite(list: seq<Record>, k: int, x: Record, p: string, q: string)
    requires Below(p, q) && 0 <= k <= |list| && x.path == Some(p)
    requires forall i | 0 <= i < k :: !Stops(GreaterEqual(p), list[i].path)
    ensures k <= FirstStop(list, GreaterEqual(q))
    ensures FirstStop(list[..k] + [x] + list[k..], GreaterEqual(q)) == FirstStop(list, GreaterEqual(q)) + 1
  {
    PassesLater(list, k, p, q);
    FirstStopInserted(list, k, x, GreaterEqual(q));
  }

  /** `InsertKeepsInfo` in the block that receives `x`, for a `q` after `p`: the search passes `x`. */
  lemma {:induction false} InsertKeepsInfoAfter(view: View, rank: Rank, o: int, k: int, x: Record, p: string, q: string, b: Record, b': Record)
    requires ViewOk(view, rank) && InsertSite(view, rank, o, k, x, p) && ViewOk(Inserted(view, o, k, x), rank)
    requires Below(p, q) && o in rank
    requires InfoAt(b, q) == InfoAt(b', q)
    ensures InfoAt(Find(view, rank, GreaterEqual(q), o, b), q) ==
      InfoAt(Find(Inserted(view, o, k, x), rank, GreaterEqual(q), o, b'), q)
    decreases rank[o], 1
  {
    FirstStopAfterSite(view[o], k, x, p, q);
    if FirstStop(view[o], GreaterEqual(q)) == k {
      InsertKeepsInfoAtSite(view, rank, o, k, x, p, q, b, b');
    } else {
      InsertKeepsInfoPast(view, rank, o, k, x, p, q, b, b');
    }
  }

  /** `InsertKeepsInfoAfter` when the search stops right after `x`: before `x` it passed a whole subtree. */
  lemma InsertKeepsInfoAtSite(view: View, rank: Rank, o: int, k: int, x: Record, p: string, q: string, b: Record, b': Record)
    requires ViewOk(view, rank) && InsertSite(view, rank, o, k, x, p) && ViewOk(Inserted(view, o, k, x), rank)
    requires Below(p, q) && FirstStop(view[o], GreaterEqual(q)) == k
    requires InfoAt(b, q) == InfoAt(b', q)
    ensures InfoAt(Find(view, rank, GreaterEqual(q), o, b), q) ==
      InfoAt(Find(Inserted(view, o, k, x), rank, GreaterEqual(q), o, b'), q)
  {
    var w, stop, list := Inserted(view, o, k, x), GreaterEqual(q), view[o];
    FirstStopAfterSite(list, k, x, p, q);
    InsertedAt(list, k, x, k);
    InsertedAt(list, k, x, k + 1);
    var found, found' := (if k < |list| then list[k] else b), (if k < |list| then list[k] else b');
    FindStep(view, rank, stop, o, b, k, found);
    FindStep(w, rank, stop, o, b', k + 1, found');
    SiteSubtreePassed(view, rank, o, k, x, p, q, found);
  }

  /** `InsertKeepsInfoAfter` when the search stops later: it goes on after the same record as before. */
  lemma {:induction false} InsertKeepsInfoPast(view: View, rank: Rank, o: int, k: int, x: Record, p: string, q: string, b: Record, b': Record)
    requires ViewOk(view, rank) && InsertSite(view, rank, o, k, x, p) && ViewOk(Inserted(view, o, k, x), rank)
    requires Below(p, q) && o in rank && FirstStop(view[o], GreaterEqual(q)) > k
    requires InfoAt(b, q) == InfoAt(b', q)
    ensures InfoAt(Find(view, rank, GreaterEqual(q), o, b), q) ==
      InfoAt(Find(Inserted(view, o, k, x), rank, GreaterEqual(q), o, b'), q)
    decreases rank[o], 0
  {
    var w, stop, list := Inserted(view, o, k, x), GreaterEqual(q), view[o];
    FirstStopAfterSite(list, k, x, p, q);
    var j := FirstStop(list, stop);
    var g := list[j - 1].indirect;
    InsertedAt(list, k, x, j);
    InsertedAt(list, k, x, j + 1);
    var found, found' := (if j < |list| then list[j] else b), (if j < |list| then list[j] else b');
    assert w[o][j] == list[j - 1] && InfoAt(found, q) == InfoAt(found', q);
    FindStep(view, rank, stop, o, b, j, found);
    FindStep(w, rank, stop, o, b', j + 1, found');
    if g >= 0 {
      InsertKeepsInfo(view, rank, o, k, x, p, q, g, found, found');
    }
  }

  /** The subtree just before an insert site for `p` is passed entirely by the search for any `q` after `p`. */
  lemma SiteSubtreePassed(view: View, rank: Rank, o: int, k: int, x: Record, p: string, q: string, f: Record)
    requires ViewOk(view, rank) && InsertSite(view, rank, o, k, x, p) && Below(p, q)
    ensures var g := if k > 0 then view[o][k - 1].indirect else -1;
      g >= 0 ==> g in view && Find(view, rank, GreaterEqual(q), g, f) == f
  {
    var g := if k > 0 then view[o][k - 1].indirect else -1;
    if g >= 0 {
      PassesFurther(view, rank, p, q, g);
      PassesReturnsBoundary(view, rank, GreaterEqual(q), g, f);
    }
  }

  // ------------------------------------------------------------- splitting

  /**
   * Any search reports the same about `q` after a split as before,
   * given boundaries that report the same about `q`.
   */
  lemma {:induction false} SplitKeepsInfo(view: View, rank: Rank, id: int, c0: int, stop: StopHere, q: string, cur: int, b: Record, b': Record)
    requires ViewOk(view, rank) && id in view && |view[id]| >= 2 && (forall x | x in view :: x < c0)
    requires id in rank && ViewOk(SplitView(view, id, c0), SplitRank(rank, id, c0))
    requires cur in view && InfoAt(b, q) == InfoAt(b', q)
    ensures InfoAt(Find(view, rank, stop, cur, b), q) ==
      InfoAt(Find(SplitView(view, id, c0), SplitRank(rank, id, c0), stop, cur, b'), q)
    decreases rank[cur], 1
  {
    var list := view[cur];
    var j := FirstStop(list, stop);
    if cur != id {
      SplitKeepsInfoOther(view, rank, id, c0, stop, q, cur, b, b');
    } else if j == 0 {
      SplitChildren(view, rank, id, c0);
      var w := SplitView(view, id, c0);
      FirstStopAt(w[id], stop, 0);
      FindStep(view, rank, stop, id, b, 0, list[0]);
      FindStep(w, SplitRank(rank, id, c0), stop, id, b', 0, w[id][0]);
    } else if j <= |list| / 2 {
      SplitKeepsInfoLeft(view, rank, id, c0, stop, q, b, b');
    } else {
      SplitKeepsInfoRight(view, rank, id, c0, stop, q, b, b');
    }
  }

  /** `SplitKeepsInfo` in a block the split leaves alone: both searches scan the same records. */
  lemma {:induction false} SplitKeepsInfoOther(view: View, rank: Rank, id: int, c0: int, stop: StopHere, q: string, cur: int, b: Record, b': Record)
    requires ViewOk(view, rank) && id in view && |view[id]| >= 2 && (forall x | x in view :: x < c0)
    requires id in rank && ViewOk(SplitView(view, id, c0), SplitRank(rank, id, c0))
    requires cur in view && cur != id && InfoAt(b, q) == InfoAt(b', q)
    ensures InfoAt(Find(view, rank, stop, cur, b), q) ==
      InfoAt(Find(SplitView(view, id, c0), SplitRank(rank, id, c0), stop, cur, b'), q)
    decreases rank[cur], 0
  {
    var list := view[cur];
    var j := FirstStop(list, stop);
    var g := if j > 0 then list[j - 1].indirect else -1;
    var found, found' := (if j < |list| then list[j] else b), (if j < |list| then list[j] else b');
    UntouchedBlock(view, id, c0, cur);
    FindStep(view, rank, stop, cur, b, j, found);
    FindStep(SplitView(view, id, c0), SplitRank(rank, id, c0), stop, cur, b', j, found');
    if g >= 0 {
      assert RecordOk(view, rank, cur, j - 1) by {
        RecordOfViewOk(view, rank, cur, j - 1);
      }
      SplitKeepsInfo(view, rank, id, c0, stop, q, g, found, found');
    }
  }

  /** A split leaves every other block as it was. */
  lemma UntouchedBlock(view: View, id: int, c0: int, cur: int)
    requires id in view && |view[id]| >= 1 && (forall x | x in view :: x < c0) && cur in view && cur != id
    ensures cur in SplitView(view, id, c0) && SplitView(view, id, c0)[cur] == view[cur]
  {
  }

  /** `SplitKeepsInfo` in the split block when the search stops in the first half: it goes on in the first child. */
  lemma {:induction false} SplitKeepsInfoLeft(view: View, rank: Rank, id: int, c0: int, stop: StopHere, q: string, b: Record, b': Record)
    requires ViewOk(view, rank) && id in view && |view[id]| >= 2 && (forall x | x in view :: x < c0)
    requires id in rank && ViewOk(SplitView(view, id, c0), SplitRank(rank, id, c0))
    requires 0 < FirstStop(view[id], stop) <= |view[id]| / 2
    requires InfoAt(b, q) == InfoAt(b', q)
    ensures InfoAt(Find(view, rank, stop, id, b), q) ==
      InfoAt(Find(SplitView(view, id, c0), SplitRank(rank, id, c0), stop, id, b'), q)
    decreases rank[id], 0
  {
    var list, m := view[id], |view[id]| / 2;
    var j := FirstStop(list, stop);
    var g := list[j - 1].indirect;
    var found := list[j];
    var found' := if j < m then ReplaceBlock(list[j], c0) else list[m].(indirect := c0 + 1);
    assert InfoAt(found, q) == InfoAt(found', q);
    SplitChildren(view, rank, id, c0);
    PairStepLeft(SplitView(view, id, c0), SplitRank(rank, id, c0), id, list, m, c0, stop, b');
    PrefixStep(SplitView(view, id, c0), SplitRank(rank, id, c0), list, m, c0, stop, list[m].(indirect := c0 + 1));
    FindStep(view, rank, stop, id, b, j, found);
    if g >= 0 {
      SplitKeepsInfo(view, rank, id, c0, stop, q, g, found, found');
    }
  }

  /**
   * After a split, the first child holds the first half of the records and
   * the second child the rest, each re-owned, and the split block points to
   * both children.
   */
  lemma SplitChildren(view: View, rank: Rank, id: int, c0: int)
    requires ViewOk(view, rank) && id in view && |view[id]| >= 2 && (forall x | x in view :: x < c0)
    ensures var list, m, w := view[id], |view[id]| / 2, SplitView(view, id, c0);
      0 < c0 && Ascending(list) && id in w && c0 in w && c0 + 1 in w &&
      w[id] == [list[0].(indirect := c0), list[m].(indirect := c0 + 1)] &&
      PrefixReowned(list, m, w[c0], c0) && ReownedFrom(list, m, w[c0 + 1], c0 + 1)
  {
    var list, m, w := view[id], |view[id]| / 2, SplitView(view, id, c0);
    assert BlockOk(view, rank, id) && 0 in view && id < c0;
    assert w[c0] == SplitChild(list, 0, c0) && w[c0 + 1] == SplitChild(list, 1, c0 + 1);
    var top := SplitParent(list, c0, c0 + 1);
    assert w[id] == top;
    assert top[0] == list[0].(indirect := c0) && top[1] == list[m].(indirect := c0 + 1);
  }

  /** A search that stops within the first `m` records stops at the first pointer record of a split block and goes on in the first child. */
  lemma PairStepLeft(w: View, rk: Rank, id: int, list: seq<Record>, m: int, c: int, stop: StopHere, b': Record)
    requires 0 < FirstStop(list, stop) <= m < |list| && Ascending(list) && c > 0
    requires ViewOk(w, rk) && id in w && w[id] == [list[0].(indirect := c), list[m].(indirect := c + 1)]
    ensures c in w && Find(w, rk, stop, id, b') == Find(w, rk, stop, c, w[id][1])
  {
    StopsFrom(list, stop, m);
    FirstStopAt(w[id], stop, 1);
    FindStep(w, rk, stop, id, b', 1, w[id][1]);
  }

  /** In a block holding the first `m` records of `list`, re-owned, the search stops at the same index after the same child pointer. */
  lemma PrefixStep(w: View, rk: Rank, list: seq<Record>, m: int, c: int, stop: StopHere, bnd: Record)
    requires 0 < FirstStop(list, stop) <= m
    requires ViewOk(w, rk) && c in w && PrefixReowned(list, m, w[c], c)
    ensures var j := FirstStop(list, stop);
      var g, found' := list[j - 1].indirect, if j < m then ReplaceBlock(list[j], c) else bnd;
      (g >= 0 ==> g in w && Find(w, rk, stop, c, bnd) == Find(w, rk, stop, g, found')) &&
      (g < 0 ==> Find(w, rk, stop, c, bnd) == found')
  {
    var a, j := w[c], FirstStop(list, stop);
    PrefixFirstStop(list, m, a, c, stop);
    assert a[j - 1] == ReplaceBlock(list[j - 1], c);
    assert j < m ==> a[j] == ReplaceBlock(list[j], c);
    FindStep(w, rk, stop, c, bnd, j, if j < m then a[j] else bnd);
  }

  /** Record `i` of `list`, from index `lo` on, sits re-owned at `i - lo` in `z`. */
  lemma ReownedAt(list: seq<Record>, lo: int, z: seq<Record>, c: int, i: int)
    requires ReownedFrom(list, lo, z, c)
    ensures lo <= i < |list| ==> z[i - lo] == ReplaceBlock(list[i], c)
  {
    assert lo <= i < |list| ==> z[i - lo] == ReplaceBlock(list[lo + (i - lo)], c);
  }

  /** The two pointer records left in a split block pass any search that passes record `m`. */
  lemma PairPasses(list: seq<Record>, m: int, top: seq<Record>, c: int, stop: StopHere)
    requires 0 < m < FirstStop(list, stop)
    requires top == [list[0].(indirect := c - 1), list[m].(indirect := c)]
    ensures FirstStop(top, stop) == 2
  {
    assert !Stops(stop, top[0].path) && !Stops(stop, top[1].path);
    FirstStopAt(top, stop, 2);
  }

  /** `SplitKeepsInfo` in the split block when the search passes the first half: it goes on in the second child. */
  lemma {:induction false} SplitKeepsInfoRight(view: View, rank: Rank, id: int, c0: int, stop: StopHere, q: string, b: Record, b': Record)
    requires ViewOk(view, rank) && id in view && |view[id]| >= 2 && (forall x | x in view :: x < c0)
    requires id in rank && ViewOk(SplitView(view, id, c0), SplitRank(rank, id, c0))
    requires |view[id]| / 2 < FirstStop(view[id], stop)
    requires InfoAt(b, q) == InfoAt(b', q)
    ensures InfoAt(Find(view, rank, stop, id, b), q) ==
      InfoAt(Find(SplitView(view, id, c0), SplitRank(rank, id, c0), stop, id, b'), q)
    decreases rank[id], 0
  {
    var list, n := view[id], |view[id]|;
    var j := FirstStop(list, stop);
    var g := list[j - 1].indirect;
    var found := if j < n then list[j] else b;
    var found' := if j < n then ReplaceBlock(list[j], c0 + 1) else b';
    assert InfoAt(found, q) == InfoAt(found', q);
    SplitChildren(view, rank, id, c0);
    PairStep(SplitView(view, id, c0), SplitRank(rank, id, c0), id, list, n / 2, c0 + 1, stop, b');
    SuffixStep(SplitView(view, id, c0), SplitRank(rank, id, c0), list, n / 2, c0 + 1, stop, b');
    if g >= 0 {
      FindDescends(view, rank, stop, id, b, j, found);
      SplitKeepsInfo(view, rank, id, c0, stop, q, g, found, found');
    } else {
      FindReturns(view, rank, stop, id, b, j, found);
    }
  }

  /** A search that passes record `m` passes both pointer records of a split block into the second child. */
  lemma PairStep(w: View, rk: Rank, id: int, list: seq<Record>, m: int, c: int, stop: StopHere, b': Record)
    requires 0 < m < FirstStop(list, stop) && c > 0
    requires ViewOk(w, rk) && id in w && w[id] == [list[0].(indirect := c - 1), list[m].(indirect := c)]
    ensures c in w && Find(w, rk, stop, id, b') == Find(w, rk, stop, c, b')
  {
    PairPasses(list, m, w[id], c, stop);
    assert w[id][1].indirect == c;
    FindStep(w, rk, stop, id, b', 2, b');
  }

  /** In a block holding the rest of `list` from `m` on, re-owned, the search stops at the same record after the same child pointer. */
  lemma SuffixStep(w: View, rk: Rank, list: seq<Record>, m: int, c: int, stop: StopHere, b': Record)
    requires ViewOk(w, rk) && c in w && ReownedFrom(list, m, w[c], c) && m < FirstStop(list, stop)
    ensures var j := FirstStop(list, stop);
      var g, found' := list[j - 1].indirect, if j < |list| then ReplaceBlock(list[j], c) else b';
      (g >= 0 ==> g in w && Find(w, rk, stop, c, b') == Find(w, rk, stop, g, found')) &&
      (g < 0 ==> Find(w, rk, stop, c, b') == found')
  {
    var z, j := w[c], FirstStop(list, stop);
    SuffixScan(list, m, z, c, stop);
    FindStep(w, rk, stop, c, b', j - m, if j - m < |z| then z[j - m] else b');
  }

  /**
   * The rest of a block from `m` on, re-owned: a search that passed `m`
   * records stops in it `m` places earlier, at the same record re-owned,
   * after a record with the same child pointer.
   */
  lemma SuffixScan(list: seq<Record>, m: int, z: seq<Record>, c: int, stop: StopHere)
    requires ReownedFrom(list, m, z, c) && m < FirstStop(list, stop)
    ensures var j := FirstStop(list, stop);
      FirstStop(z, stop) == j - m && z[j - m - 1].indirect == list[j - 1].indirect &&
      (j - m < |z| <==> j < |list|) && (j < |list| ==> z[j - m] == ReplaceBlock(list[j], c))
  {
    var j := FirstStop(list, stop);
    ReownedFirstStop(list, m, z, c, stop);
    ReownedAt(list, m, z, c, j - 1);
    ReownedAt(list, m, z, c, j);
  }

  // ------------------------------------------------------ the edits as map updates

  /** After `Add(p, n)` the manifest keeps `p` as existing with length `n`. */
  lemma AddFinds(view: View, rank: Rank, p: string, n: int)
    requires ViewOk(view, rank)
    ensures Lookup(AddView(view, rank, p, n), rank, p) == Some(FileInfo(true, n))
  {
    var r := Descent(view, rank, GreaterEqual(p));
    DescentPlaced(view, rank, GreaterEqual(p));
    if r.path == Some(p) {
      MarkedDescent(view, rank, r, true, n, GreaterEqual(p));
    } else {
      InsertSiteOfDescent(view, rank, p, n);
      var o, k := Owner(r), Position(view, r);
      InsertFindsNew(view, rank, o, k, NewRecord(o, p, n), p, r, 0, TailRecord, TailRecord);
    }
  }

  /** `Add(p, n)` changes nothing the manifest keeps about any other path. */
  lemma AddKeepsOthers(view: View, rank: Rank, p: string, n: int, q: string)
    requires ViewOk(view, rank) && q != p
    ensures Lookup(AddView(view, rank, p, n), rank, q) == Lookup(view, rank, q)
  {
    var r := Descent(view, rank, GreaterEqual(p));
    DescentPlaced(view, rank, GreaterEqual(p));
    if r.path == Some(p) {
      MarkedDescent(view, rank, r, true, n, GreaterEqual(q));
    } else {
      InsertSiteOfDescent(view, rank, p, n);
      var o, k := Owner(r), Position(view, r);
      InsertKeepsInfo(view, rank, o, k, NewRecord(o, p, n), p, q, 0, TailRecord, TailRecord);
    }
  }

  /** After `Remove(p)` a kept `p` is kept as not existing with length -1; an absent `p` stays absent. */
  lemma RemoveClears(view: View, rank: Rank, p: string)
    requires ViewOk(view, rank)
    ensures Lookup(RemoveView(view, rank, p), rank, p) ==
      if Lookup(view, rank, p).Some? then Some(FileInfo(false, -1)) else None
  {
    var r := Descent(view, rank, GreaterEqual(p));
    DescentPlaced(view, rank, GreaterEqual(p));
    if r.path == Some(p) {
      MarkedDescent(view, rank, r, false, -1, GreaterEqual(p));
    }
  }

  /** `Remove(p)` changes nothing the manifest keeps about any other path. */
  lemma RemoveKeepsOthers(view: View, rank: Rank, p: string, q: string)
    requires ViewOk(view, rank) && q != p
    ensures Lookup(RemoveView(view, rank, p), rank, q) == Lookup(view, rank, q)
  {
    var r := Descent(view, rank, GreaterEqual(p));
    DescentPlaced(view, rank, GreaterEqual(p));
    if r.path == Some(p) {
      MarkedDescent(view, rank, r, false, -1, GreaterEqual(q));
    }
  }

  /** `Split` of a block into two fresh children changes nothing the manifest keeps about any path. */
  lemma SplitKeepsLookup(view: View, rank: Rank, id: int, c0: int, q: string)
    requires ViewOk(view, rank) && id in view && |view[id]| >= 2 && forall x | x in view :: x < c0
    ensures id in rank && ViewOk(SplitView(view, id, c0), SplitRank(rank, id, c0)) &&
      Lookup(SplitView(view, id, c0), SplitRank(rank, id, c0), q) == Lookup(view, rank, q)
  {
    SplitKeepsViewOk(view, rank, id, c0);
    SplitKeepsInfo(view, rank, id, c0, GreaterEqual(q), q, 0, TailRecord, TailRecord);
  }
}
