/**
 * The block tree as the manifest sees it: every block id below the allocator
 * mapped to its record list (a View), the structural invariant of that tree,
 * and the multi-level search (`Manifest.Search`) as a function on it.
 *
 * Termination of the search rests on a rank: every child pointer leads to a
 * block of strictly lower rank. Block ids alone do not order the tree, because
 * splitting an internal block moves pointers to older (smaller) ids into the
 * newly allocated (larger) children.
 */
module Tree {
  import opened Wrappers
  import opened Paths
  import opened Records
  import opened Blocks

  /** Record list of every block id in use. */
  type View = map<int, seq<Record>>

  /** A ranking of block ids that strictly decreases along child pointers. */
  type Rank = map<int, nat>

  /** Every record of `list` sorts strictly before `bound`. */
  predicate AllBelow(list: seq<Record>, bound: Option<string>) {
    forall i | 0 <= i < |list| :: KeyBelow(list[i].path, bound)
  }

  /** A search for `stop` passes every record of `list`. */
  predicate AllPass(list: seq<Record>, stop: StopHere) {
    forall i | 0 <= i < |list| :: !Stops(stop, list[i].path)
  }

  /** `c` may be a child of block `id`: it is not the root, it is in use, and its rank is lower. */
  predicate ChildOk(view: View, rank: Rank, id: int, c: int) {
    c != 0 && c in view && id in rank && c in rank && rank[c] < rank[id]
  }

  /**
   * Record `k` of block `id` is owned by `id`; its child, if any, is a proper
   * child, and every record of that child sorts before the next record of `id`.
   */
  predicate RecordOk(view: View, rank: Rank, id: int, k: int)
    requires id in view && 0 <= k < |view[id]|
  {
    var r := view[id][k];
    r.block == Some(id) &&
    (r.indirect >= 0 ==> ChildOk(view, rank, id, r.indirect)) &&
    (r.indirect in view && k + 1 < |view[id]| ==> AllBelow(view[r.indirect], view[id][k + 1].path))
  }

  /** Block `id` is strictly ascending and each of its records is consistent. */
  predicate BlockOk(view: View, rank: Rank, id: int)
    requires id in view
  {
    0 <= id && id in rank && Ascending(view[id]) &&
    forall k | 0 <= k < |view[id]| :: RecordOk(view, rank, id, k)
  }

  /** The tree invariant: the root exists and every block is consistent. */
  predicate ViewOk(view: View, rank: Rank) {
    0 in view && forall id | id in view :: BlockOk(view, rank, id)
  }

  /** Block of a record; the tail record belongs to the root (as `Add` treats it). */
  function Owner(r: Record): int {
    if r.block.Some? then r.block.value else 0
  }

  /** `r` is the tail record, or it sits in its owner block where the by-path lookup finds it. */
  predicate Located(view: View, r: Record) {
    r == TailRecord ||
    (r.path.Some? && r.block.Some? && r.block.value in view &&
     var k := IndexOfPath(view[r.block.value], r.path.value); 0 <= k && view[r.block.value][k] == r)
  }

  /** Index of `r` in its owner block; the tail record's is one past the root's last record. */
  function Position(view: View, r: Record): int
    requires 0 in view && Located(view, r)
  {
    InsertPosition(view[Owner(r)], r)
  }

  /** A search passes record `p` and, when `p` has a child, every record of the child. */
  predicate Passes(view: View, stop: StopHere, p: Record) {
    !Stops(stop, p.path) && (p.indirect in view ==> AllPass(view[p.indirect], stop))
  }

  /** `r` is located and the search passed the record just before it in its owner block. */
  predicate Placed(view: View, stop: StopHere, r: Record)
    requires 0 in view
  {
    Located(view, r) &&
    var k := Position(view, r);
    (k == 0 || Passes(view, stop, view[Owner(r)][k - 1]))
  }

  /** Under the invariant every record of every block is consistent. */
  lemma RecordOfViewOk(view: View, rank: Rank, id: int, k: int)
    requires id in view && 0 <= k < |view[id]|
    ensures ViewOk(view, rank) ==> RecordOk(view, rank, id, k)
  {
    if ViewOk(view, rank) {
      assert BlockOk(view, rank, id);
    }
  }

  /**
   * A block with a record pointing back at the block itself admits no rank, so
   * a directory holding one is not a tree (the search would revisit the block
   * forever).
   */
  lemma SelfChildHasNoRank(view: View, rank: Rank, id: int, k: int)
    requires id in view && 0 <= k < |view[id]| && view[id][k].indirect == id
    ensures !ViewOk(view, rank)
  {
    RecordOfViewOk(view, rank, id, k);
  }

  /**
   * The multi-level search from block `cur` with boundary `boundary`: scan the
   * block, then the boundary, for the first record where the search stops; if
   * the record before it has a child, continue in the child with the found
   * record as the new boundary, otherwise return the found record.
   */
  function Find(view: View, rank: Rank, stop: StopHere, cur: int, boundary: Record): (r: Record)
    requires ViewOk(view, rank) && cur in view
    ensures Stops(stop, boundary.path) ==> Stops(stop, r.path)
    decreases rank[cur]
  {
    var list := view[cur];
    var j := FirstStop(list, stop);
    var found := if j < |list| then list[j] else boundary;
    if j == 0 || list[j - 1].indirect < 0 then found
    else
      assert RecordOk(view, rank, cur, j - 1);
      Find(view, rank, stop, list[j - 1].indirect, found)
  }

  /** Every record of a block is owned by that block. */
  lemma OwnedRecords(view: View, rank: Rank, cur: int)
    requires ViewOk(view, rank) && cur in view
    ensures forall k | 0 <= k < |view[cur]| :: view[cur][k].block == Some(cur)
  {
    assert BlockOk(view, rank, cur);
    forall k | 0 <= k < |view[cur]|
      ensures view[cur][k].block == Some(cur)
    {
      assert RecordOk(view, rank, cur, k);
    }
  }

  /** The search stops in block `cur` at index `j` with no child before it: it returns what it found. */
  lemma FindReturns(view: View, rank: Rank, stop: StopHere, cur: int, boundary: Record, j: nat, found: Record)
    requires ViewOk(view, rank) && cur in view
    requires j == FirstStop(view[cur], stop) && found == (if j < |view[cur]| then view[cur][j] else boundary)
    requires j == 0 || view[cur][j - 1].indirect < 0
    ensures Find(view, rank, stop, cur, boundary) == found
  {
  }

  /** The search stops in block `cur` at index `j` after a record with a child: it goes on in that child. */
  lemma FindDescends(view: View, rank: Rank, stop: StopHere, cur: int, boundary: Record, j: nat, found: Record)
    requires ViewOk(view, rank) && cur in view
    requires j == FirstStop(view[cur], stop) && found == (if j < |view[cur]| then view[cur][j] else boundary)
    requires j > 0 && view[cur][j - 1].indirect >= 0
    ensures ChildOk(view, rank, cur, view[cur][j - 1].indirect)
    ensures Find(view, rank, stop, cur, boundary) == Find(view, rank, stop, view[cur][j - 1].indirect, found)
  {
    assert BlockOk(view, rank, cur) && RecordOk(view, rank, cur, j - 1);
  }

  /** One step of the search in block `cur`: it returns what it found, or goes on in the child before it. */
  lemma FindStep(view: View, rank: Rank, stop: StopHere, cur: int, boundary: Record, j: nat, found: Record)
    requires ViewOk(view, rank) && cur in view
    requires j == FirstStop(view[cur], stop) && found == (if j < |view[cur]| then view[cur][j] else boundary)
    ensures j > 0 && view[cur][j - 1].indirect >= 0 ==>
      ChildOk(view, rank, cur, view[cur][j - 1].indirect) &&
      Find(view, rank, stop, cur, boundary) == Find(view, rank, stop, view[cur][j - 1].indirect, found)
    ensures j == 0 || view[cur][j - 1].indirect < 0 ==> Find(view, rank, stop, cur, boundary) == found
  {
    if j > 0 {
      assert BlockOk(view, rank, cur) && RecordOk(view, rank, cur, j - 1);
    }
  }

  /** What `Search` returns when started at the root with the tail record as boundary. */
  function Descent(view: View, rank: Rank, stop: StopHere): Record
    requires ViewOk(view, rank)
  {
    Find(view, rank, stop, 0, TailRecord)
  }

  /**
   * Where the search stands while it descends: still scanning the root with the
   * tail as boundary, or the boundary is located, the search passed the record
   * before it, and that record's child is the block being scanned or was
   * passed entirely.
   */
  predicate Descending(view: View, stop: StopHere, cur: int, boundary: Record)
    requires 0 in view
  {
    Located(view, boundary) &&
    ((cur == 0 && boundary == TailRecord) ||
     (var k := Position(view, boundary);
      k > 0 &&
      var p := view[Owner(boundary)][k - 1];
      !Stops(stop, p.path) && p.indirect >= 0 &&
      (p.indirect == cur || (p.indirect in view && AllPass(view[p.indirect], stop)))))
  }

  /** A record of an ascending block owned by `id` is located at its own index. */
  lemma LocatedAt(view: View, rank: Rank, id: int, j: int)
    requires ViewOk(view, rank) && id in view && 0 <= j < |view[id]|
    ensures Located(view, view[id][j]) && Owner(view[id][j]) == id && Position(view, view[id][j]) == j
  {
    assert BlockOk(view, rank, id) && RecordOk(view, rank, id, j);
    IndexOfAscending(view[id], j);
  }

  /** The search returns a located record past whose predecessor (and its child) it went. */
  lemma {:induction false} FindPlaced(view: View, rank: Rank, stop: StopHere, cur: int, boundary: Record)
    requires ViewOk(view, rank) && cur in view && Descending(view, stop, cur, boundary)
    ensures Placed(view, stop, Find(view, rank, stop, cur, boundary))
    decreases rank[cur]
  {
    var list := view[cur];
    var j := FirstStop(list, stop);
    var found := if j < |list| then list[j] else boundary;
    FindStep(view, rank, stop, cur, boundary, j, found);
    if j > 0 && list[j - 1].indirect >= 0 {
      DescendingChild(view, rank, stop, cur, boundary, j, found);
      FindPlaced(view, rank, stop, list[j - 1].indirect, found);
    } else {
      PlacedWhenReturned(view, rank, stop, cur, boundary, j, found);
    }
  }

  /** Where the search returns from block `cur`, what it returns is placed. */
  lemma PlacedWhenReturned(view: View, rank: Rank, stop: StopHere, cur: int, boundary: Record, j: nat, found: Record)
    requires ViewOk(view, rank) && cur in view && Descending(view, stop, cur, boundary)
    requires j == FirstStop(view[cur], stop) && found == (if j < |view[cur]| then view[cur][j] else boundary)
    requires j == 0 || view[cur][j - 1].indirect < 0
    ensures Placed(view, stop, found)
  {
    var list := view[cur];
    if j < |list| {
      LocatedAt(view, rank, cur, j);
    } else if j > 0 && !(cur == 0 && boundary == TailRecord) {
      var p := view[Owner(boundary)][Position(view, boundary) - 1];
      assert p.indirect == cur ==> AllPass(view[p.indirect], stop);
    }
  }

  /** Where the search goes on in a child, it goes on descending. */
  lemma DescendingChild(view: View, rank: Rank, stop: StopHere, cur: int, boundary: Record, j: nat, found: Record)
    requires ViewOk(view, rank) && cur in view && Descending(view, stop, cur, boundary)
    requires j == FirstStop(view[cur], stop) && found == (if j < |view[cur]| then view[cur][j] else boundary)
    requires j > 0 && view[cur][j - 1].indirect >= 0
    ensures Descending(view, stop, view[cur][j - 1].indirect, found)
  {
    var list := view[cur];
    assert RecordOk(view, rank, cur, j - 1) by {
      RecordOfViewOk(view, rank, cur, j - 1);
    }
    if j < |list| {
      LocatedAt(view, rank, cur, j);
    } else if !(cur == 0 && boundary == TailRecord) {
      var p := view[Owner(boundary)][Position(view, boundary) - 1];
      assert p.indirect == cur ==> AllPass(view[p.indirect], stop);
    }
  }

  /** The search from the root returns a record at which it stops, placed as `Placed` says. */
  lemma DescentPlaced(view: View, rank: Rank, stop: StopHere)
    requires ViewOk(view, rank)
    ensures Stops(stop, Descent(view, rank, stop).path)
    ensures Placed(view, stop, Descent(view, rank, stop))
  {
    FindPlaced(view, rank, stop, 0, TailRecord);
  }
}
