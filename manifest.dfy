/**
 * The manifest (`Manifest`): a cache of blocks over the `manifests` directory,
 * the dirty-block bookkeeping with its batched commit, and the operations
 * `Search`, `Add`, `Remove`, `Insert` and `Split` on the block tree.
 *
 * Blocks are kept in an arena: the cache maps block ids to block values, and
 * a record refers to its owner and its child by id. The `dirty` flag of every
 * block is the set `dirty`. The logical content is `View()`: for every id the
 * allocator has handed out, the cached records, or what loading the block
 * from storage would give.
 */
module ManifestIndex {
  import opened Wrappers
  import opened Paths
  import opened Records
  import opened Blocks
  import opened Tree
  import opened TreeEdits
  import opened Lookups

  /** `Manifest.SetDirty` commits every dirty block once more changes than this were counted. */
  const DirtyCommitLimit := 100

  type Cache = map<int, ManifestBlock>

  /** Records of block `id`: the cached block's, or what loading it from storage gives. */
  function RecordsOf(cache: Cache, storage: Storage, id: int): seq<Record> {
    if id in cache then cache[id].records else LoadBlock(storage, id).records
  }

  /** The record list of every id below `next`. */
  function ViewOf(cache: Cache, storage: Storage, next: int): (v: View)
    ensures forall id :: id in v <==> 0 <= id < next
    ensures forall id | id in v :: v[id] == RecordsOf(cache, storage, id)
  {
    map id | 0 <= id < next :: RecordsOf(cache, storage, id)
  }

  /** The two storages agree on every block that is not cached. */
  ghost predicate SameOutside(cache: Cache, s: Storage, t: Storage) {
    forall id | id !in cache :: (id in s <==> id in t) && (id in s ==> s[id] == t[id])
  }

  /** Writing cached blocks to storage does not change what the manifest holds. */
  lemma ViewOfSameOutside(cache: Cache, s: Storage, t: Storage, next: int)
    requires SameOutside(cache, s, t)
    ensures ViewOf(cache, s, next) == ViewOf(cache, t, next)
  {
    var v, w := ViewOf(cache, s, next), ViewOf(cache, t, next);
    forall id | id in v
      ensures v[id] == w[id]
    {
      if id !in cache {
        assert LoadBlock(s, id) == LoadBlock(t, id);
      }
    }
  }

  /** Caching a block as loaded from storage does not change what the manifest holds. */
  lemma ViewOfFetch(cache: Cache, s: Storage, next: int, id: int)
    requires id !in cache
    ensures ViewOf(cache[id := LoadBlock(s, id)], s, next) == ViewOf(cache, s, next)
  {
    var v, w := ViewOf(cache[id := LoadBlock(s, id)], s, next), ViewOf(cache, s, next);
    assert forall x | x in v :: v[x] == w[x];
  }

  /** Replacing the records of a cached block changes exactly that block's entry. */
  lemma ViewOfPut(cache: Cache, s: Storage, next: int, id: int, list: seq<Record>)
    requires id in cache && 0 <= id < next
    ensures ViewOf(cache[id := cache[id].(records := list)], s, next) == ViewOf(cache, s, next)[id := list]
  {
    var v, w := ViewOf(cache[id := cache[id].(records := list)], s, next), ViewOf(cache, s, next)[id := list];
    assert forall x | x in v :: v[x] == w[x];
  }

  /** `v` with the `n` ids from `from` on mapped to empty record lists. */
  function Grown(v: View, from: int, n: nat): (w: View)
    ensures forall x :: x in w <==> x in v || from <= x < from + n
    ensures forall x | x in v && !(from <= x < from + n) :: w[x] == v[x]
    ensures forall x | from <= x < from + n :: w[x] == []
  {
    if n == 0 then v else Grown(v, from, n - 1)[from + n - 1 := []]
  }

  /** Splitting into two freshly grown ids gives the same view as splitting into two new ids. */
  lemma GrownThenSplit(v: View, grown: View, list: seq<Record>, id: int, c0: int, a: int, b: int)
    requires id in v && |v[id]| >= 1 && c0 !in v && c0 + 1 !in v
    requires grown == Grown(v, c0, SplitWays) && list == v[id] && a == c0 && b == c0 + 1
    ensures grown[a := SplitChild(list, 0, a)][b := SplitChild(list, 1, b)][id := SplitParent(list, a, b)]
      == SplitView(v, id, c0)
  {
    var x := grown[a := SplitChild(list, 0, a)][b := SplitChild(list, 1, b)][id := SplitParent(list, a, b)];
    var y := SplitView(v, id, c0);
    assert x.Keys == y.Keys;
    forall k | k in x
      ensures x[k] == y[k]
    {
      if k != id && k != c0 && k != c0 + 1 {
        assert x[k] == v[k];
      }
    }
  }

  /** With every cached block as storage holds it, the view is the one read from storage alone. */
  lemma ReloadSameView(cache: Cache, s: Storage, next: int)
    requires forall x | x in cache :: cache[x] == LoadBlock(s, x)
    ensures ViewOf(cache, s, next) == ViewOf(map[], s, next)
  {
    var v, w := ViewOf(cache, s, next), ViewOf(map[], s, next);
    assert forall x | x in v :: v[x] == w[x];
  }

  /** Writing some cached blocks to storage does not change what the manifest holds. */
  lemma FlushKeepsView(cache: Cache, s: Storage, t: Storage, ids: set<int>, next: int)
    requires ids <= cache.Keys && Flushed(t, s, cache, ids)
    ensures ViewOf(cache, s, next) == ViewOf(cache, t, next)
  {
    assert SameOutside(cache, s, t);
    ViewOfSameOutside(cache, s, t, next);
  }

  /**
   * Storage that agrees with every cached block, where the cache holds a root
   * whose superblock bounds the stored ids, is a consistent store for `rank`
   * when the cached view is a tree.
   */
  lemma ReloadedStoreOk(cache: Cache, t: Storage, rank: Rank)
    requires 0 in cache && cache[0].superBlock.Some?
    requires forall x | x in cache :: cache[x] == LoadBlock(t, x)
    requires var root := cache[0].superBlock.value;
      root.nextUnassignedBlockId >= 1 && root.splitThreshold >= 1 &&
      (forall id | id in t :: 0 <= id < root.nextUnassignedBlockId) &&
      ViewOk(ViewOf(cache, t, root.nextUnassignedBlockId), rank)
    ensures StoreOk(t, rank)
  {
    ReloadSameView(cache, t, cache[0].superBlock.value.nextUnassignedBlockId);
  }

  /** A non-empty set of ids has a member. */
  lemma HasElement(s: set<int>)
    requires s != {}
    ensures exists x :: x in s
  {
    if forall x :: x !in s {
      assert false;
    }
  }

  /** Storage `t` is `s` with every block of `ids` written from the cache. */
  ghost predicate Flushed(t: Storage, s: Storage, cache: Cache, ids: set<int>)
    requires ids <= cache.Keys
  {
    (forall id | id in ids :: id in t && t[id] == ToFile(cache[id])) &&
    (forall id | id !in ids :: (id in t <==> id in s) && (id in t ==> t[id] == s[id]))
  }

  /** A `manifests` directory whose blocks form a consistent tree under `rank`. */
  ghost predicate StoreOk(storage: Storage, rank: Rank) {
    var root := LoadBlock(storage, 0).superBlock.value;
    root.nextUnassignedBlockId >= 1 && root.splitThreshold >= 1 &&
    (forall id | id in storage :: 0 <= id < root.nextUnassignedBlockId) &&
    ViewOk(ViewOf(map[], storage, root.nextUnassignedBlockId), rank)
  }

  /** An empty directory is one: the manifest starts with an empty root and a fresh superblock. */
  lemma EmptyStoreOk()
    ensures StoreOk(map[], map[0 := 0])
    ensures ViewOf(map[], map[], LoadBlock(map[], 0).superBlock.value.nextUnassignedBlockId) == map[0 := []]
  {
    var v := ViewOf(map[], map[], 1);
    assert v == map[0 := []];
    assert BlockOk(v, map[0 := 0], 0);
  }

  class Manifest {
    /** The `manifests` directory of the storage backend, by block id. */
    var storage: Storage
    /** `blockCache`: every block fetched or created so far. */
    var blockCache: Cache
    /** Ids of the cached blocks whose `dirty` flag is set. */
    var dirty: set<int>
    /** `dirtyCount`: changes counted since the last batched commit. */
    var dirtyCount: int
    /** A rank for the blocks in use that decreases along child pointers. */
    ghost var rank: Rank
    /** Every change `SetDirty` has counted since the manifest was opened. */
    ghost var changes: nat

    /** The root block is cached and carries the superblock. */
    predicate HasRoot()
      reads this
    {
      0 in blockCache && blockCache[0].superBlock.Some?
    }

    /** `rootBlock.superBlock.nextUnassignedBlockId`. */
    function Next(): int
      reads this
      requires HasRoot()
    {
      blockCache[0].superBlock.value.nextUnassignedBlockId
    }

    /** `rootBlock.superBlock.splitThreshold`. */
    function Threshold(): int
      reads this
      requires HasRoot()
    {
      blockCache[0].superBlock.value.splitThreshold
    }

    /** Bookkeeping kept at all times, apart from the bound on the change counter. */
    ghost predicate Cached()
      reads this
    {
      HasRoot() && Next() >= 1 && Threshold() >= 1 &&
      (forall id | id in blockCache :: 0 <= id < Next()) &&
      (forall id | id in storage :: 0 <= id < Next()) &&
      dirty <= blockCache.Keys
    }

    /** Bookkeeping kept between operations. */
    ghost predicate Tracked()
      reads this
    {
      Cached() && 0 <= dirtyCount <= DirtyCommitLimit && dirtyCount == changes % (DirtyCommitLimit + 1) &&
      Persisted({})
    }

    /** What the manifest holds: the record list of every allocated block id. */
    ghost function View(): View
      reads this
      requires HasRoot()
    {
      ViewOf(blockCache, storage, Next())
    }

    /** The bookkeeping and the tree invariant. */
    ghost predicate Valid()
      reads this
    {
      Tracked() && ViewOk(View(), rank)
    }

    /**
     * Nothing is lost: every cached block is owned by its id and, unless it is
     * marked dirty (or listed in `except`), it is what loading it from storage
     * gives.
     */
    ghost predicate Persisted(except: set<int>)
      reads this
    {
      forall x | x in blockCache :: Owned(blockCache[x], x) && (x in dirty || x in except || blockCache[x] == LoadBlock(storage, x))
    }

    /** `ManifestBlock.CommitChanges`: a dirty block is written and becomes clean. */
    method CommitBlock(id: int)
      requires id in blockCache && Owned(blockCache[id], id)
      modifies this
      ensures blockCache == old(blockCache) && dirtyCount == old(dirtyCount) && rank == old(rank) && changes == old(changes)
      ensures dirty == old(dirty) - {id}
      ensures storage == if id in old(dirty) then old(storage)[id := ToFile(blockCache[id])] else old(storage)
      ensures id in old(dirty) ==> LoadBlock(storage, id) == blockCache[id]
    {
      if id !in dirty {
        return;
      }
      storage := storage[id := ToFile(blockCache[id])];
      dirty := dirty - {id};
      LoadAfterWrite(old(storage), id, blockCache[id]);
    }

    /**
     * The loop of `Manifest.CommitChanges`: every dirty cached block is
     * written; none is dirty afterwards, and a manifest loaded afresh from
     * storage would hold the same record lists.
     */
    method CommitCachedBlocks()
      requires Cached() && Persisted({})
      modifies this
      ensures Cached() && Persisted({})
      ensures blockCache == old(blockCache) && dirtyCount == old(dirtyCount) && rank == old(rank) && changes == old(changes)
      ensures dirty == {} && Flushed(storage, old(storage), blockCache, old(dirty))
      ensures View() == ViewOf(map[], storage, Next())
    {
      ghost var s0, d0 := storage, dirty;
      var pending := blockCache.Keys;
      while pending != {}
        invariant blockCache == old(blockCache) && dirtyCount == old(dirtyCount) && rank == old(rank) && changes == old(changes)
        invariant Cached() && Persisted({})
        invariant pending <= blockCache.Keys
        invariant dirty <= pending && dirty <= d0
        invariant Flushed(storage, s0, blockCache, d0 - dirty)
        decreases |pending|
      {
        HasElement(pending);
        var id :| id in pending;
        CommitBlock(id);
        pending := pending - {id};
      }
      assert d0 - dirty == d0;
      ReloadSameView(blockCache, storage, Next());
    }

    /**
     * `Manifest.CommitChanges`: the cached blocks are committed. What the
     * manifest holds does not change, the invariant is kept, and storage
     * alone now forms a consistent store that a new manifest can open.
     */
    method CommitChanges()
      requires Cached() && Persisted({})
      modifies this
      ensures Cached() && Persisted({})
      ensures blockCache == old(blockCache) && dirtyCount == old(dirtyCount) && rank == old(rank) && changes == old(changes)
      ensures dirty == {} && Flushed(storage, old(storage), blockCache, old(dirty))
      ensures View() == ViewOf(map[], storage, Next())
      ensures View() == old(View()) && (old(Valid()) ==> Valid() && StoreOk(storage, rank))
    {
      CommitCachedBlocks();
      FlushKeepsView(blockCache, old(storage), storage, old(dirty), Next());
      if old(Valid()) {
        ReloadedStoreOk(blockCache, storage, rank);
      }
    }

    /** `Manifest.SetDirty`: count a change; past the limit, commit every dirty block and restart the count. */
    method NoteDirty()
      requires Tracked()
      modifies this
      ensures Tracked() && blockCache == old(blockCache) && rank == old(rank) && changes == old(changes) + 1
      ensures old(dirtyCount) < DirtyCommitLimit ==>
        dirtyCount == old(dirtyCount) + 1 && dirty == old(dirty) && storage == old(storage)
      ensures old(dirtyCount) == DirtyCommitLimit ==>
        dirtyCount == 0 && dirty == {} && Flushed(storage, old(storage), blockCache, old(dirty))
    {
      changes := changes + 1;
      dirtyCount := dirtyCount + 1;
      if dirtyCount > DirtyCommitLimit {
        CommitChanges();
        dirtyCount := 0;
      }
    }

    /**
     * `ManifestBlock.SetDirty`: mark block `id` dirty and count the change.
     * Block `id`, the one block that may differ from storage, is covered again,
     * and what the manifest holds does not change.
     */
    method SetBlockDirty(id: int)
      requires Cached() && 0 <= dirtyCount <= DirtyCommitLimit && dirtyCount == changes % (DirtyCommitLimit + 1)
      requires id in blockCache && Persisted({id})
      modifies this
      ensures Tracked() && blockCache == old(blockCache) && rank == old(rank) && changes == old(changes) + 1
      ensures old(dirtyCount) < DirtyCommitLimit ==>
        dirtyCount == old(dirtyCount) + 1 && dirty == old(dirty) + {id} && storage == old(storage)
      ensures old(dirtyCount) == DirtyCommitLimit ==>
        dirtyCount == 0 && dirty == {} && Flushed(storage, old(storage), blockCache, old(dirty) + {id})
      ensures SameOutside(blockCache, old(storage), storage) && View() == old(View())
    {
      dirty := dirty + {id};
      assert Persisted({});
      NoteDirty();
      ViewOfSameOutside(blockCache, old(storage), storage, Next());
    }

    /** `FetchBlock`: the cached block, or else the block loaded from storage, which is then cached. */
    method FetchBlock(id: int) returns (b: ManifestBlock)
      requires Tracked() && 0 <= id < Next()
      modifies this
      ensures b == if id in old(blockCache) then old(blockCache)[id] else LoadBlock(storage, id)
      ensures blockCache == old(blockCache)[id := b]
      ensures storage == old(storage) && dirty == old(dirty) && dirtyCount == old(dirtyCount) && rank == old(rank)
      ensures changes == old(changes)
      ensures Tracked() && View() == old(View()) && b.records == View()[id]
    {
      if id in blockCache {
        return blockCache[id];
      }
      b := LoadBlock(storage, id);
      blockCache := blockCache[id := b];
      ViewOfFetch(old(blockCache), storage, Next(), id);
    }

    /**
     * The `nextUnassignedBlockId` setter of the root superblock: store the
     * value and mark the root block dirty. Ids from the old value on hold
     * empty blocks.
     */
    method SetNextUnassignedBlockId(next: int)
      requires Tracked() && next >= Next()
      modifies this
      ensures Tracked() && Next() == next && Threshold() == old(Threshold()) && rank == old(rank)
      ensures changes == old(changes) + 1
      ensures blockCache == old(blockCache)[0 := blockCache[0]]
      ensures old(dirtyCount) < DirtyCommitLimit ==>
        dirtyCount == old(dirtyCount) + 1 && dirty == old(dirty) + {0} && storage == old(storage)
      ensures old(dirtyCount) == DirtyCommitLimit ==>
        dirtyCount == 0 && dirty == {} && Flushed(storage, old(storage), blockCache, old(dirty) + {0})
      ensures blockCache[0].records == old(blockCache)[0].records
      ensures SameOutside(blockCache, old(storage), storage)
      ensures forall x | 0 <= x < old(Next()) :: View()[x] == old(View())[x]
      ensures forall x | old(Next()) <= x < next :: View()[x] == []
    {
      var root := blockCache[0];
      blockCache := blockCache[0 := root.(superBlock := Some(root.superBlock.value.(nextUnassignedBlockId := next)))];
      assert Persisted({0});
      SetBlockDirty(0);
    }

    /** `Test_SetSplitThreshold`: the root's superblock gets the new threshold and the root block is marked dirty. */
    method SetSplitThreshold(splitThreshold: int)
      requires Valid() && splitThreshold >= 1
      modifies this
      ensures Valid() && Threshold() == splitThreshold && Next() == old(Next()) && rank == old(rank)
      ensures changes == old(changes) + 1
      ensures blockCache == old(blockCache)[0 := blockCache[0]]
      ensures old(dirtyCount) < DirtyCommitLimit ==>
        dirtyCount == old(dirtyCount) + 1 && dirty == old(dirty) + {0} && storage == old(storage)
      ensures old(dirtyCount) == DirtyCommitLimit ==>
        dirtyCount == 0 && dirty == {} && Flushed(storage, old(storage), blockCache, old(dirty) + {0})
      ensures View() == old(View())
    {
      var root := blockCache[0];
      blockCache := blockCache[0 := root.(superBlock := Some(root.superBlock.value.(splitThreshold := splitThreshold)))];
      assert Persisted({0});
      assert View() == old(View());
      SetBlockDirty(0);
    }

    /** `CreateBlock`: hand out the next block id, load its (absent) block, and cache it. */
    method CreateBlock() returns (id: int)
      requires Tracked()
      modifies this
      ensures Tracked() && id == old(Next()) && id !in old(blockCache) && Next() == id + 1
      ensures changes == old(changes) + 1
      ensures Threshold() == old(Threshold())
      ensures blockCache == old(blockCache)[0 := blockCache[0]][id := ManifestBlock([], None)]
      ensures blockCache[0].records == old(blockCache)[0].records
      ensures View() == old(View())[id := []] && rank == old(rank)[id := 0]
    {
      id := Next();
      var block := LoadBlock(storage, id);
      SetNextUnassignedBlockId(id + 1);
      assert id !in blockCache;
      blockCache := blockCache[id := block];
      rank := rank[id := 0];
      assert View() == old(View())[id := []];
      if old(Valid()) {
        AddEmptyKeepsViewOk(old(View()), old(rank), id);
      }
    }

    /**
     * Since the method began, blocks were at most loaded into the cache:
     * storage, the dirty bookkeeping and the root block are as they were, and
     * every block cached then is cached still.
     */
    twostate predicate OnlyFetched()
      reads this
    {
      storage == old(storage) && dirty == old(dirty) && dirtyCount == old(dirtyCount) && rank == old(rank) &&
      changes == old(changes) && old(blockCache).Keys <= blockCache.Keys &&
      (0 in old(blockCache) ==> blockCache[0] == old(blockCache)[0])
    }

    /**
     * The inner loop of `Search`: walk the block's records and then the
     * boundary record, remembering the previous one, until the search stops.
     */
    static method Scan(list: seq<Record>, boundary: Record, stop: StopHere) returns (j: nat, found: Record, prev: Option<Record>)
      requires Stops(stop, boundary.path)
      ensures j == FirstStop(list, stop)
      ensures found == if j < |list| then list[j] else boundary
      ensures prev == if j == 0 then None else Some(list[j - 1])
    {
      var scan := list + [boundary];
      prev := None;
      j := 0;
      while j < |scan|
        invariant 0 <= j <= |scan|
        invariant prev == if j == 0 then None else Some(scan[j - 1])
        invariant forall i | 0 <= i < j :: !Stops(stop, scan[i].path)
      {
        if Stops(stop, scan[j].path) {
          break;
        }
        prev := Some(scan[j]);
        j := j + 1;
      }
      if j == |scan| {
        // the boundary always stops the scan
        assert false;
      }
      found := scan[j];
      ScanStop(list, boundary, stop, j);
    }

    /**
     * `Search`: scan the current block, and then its boundary record, for the
     * first record at which `stop` holds. If the record just before it points
     * to a child block, continue in that child with the found record as the
     * new boundary; otherwise return the found record.
     */
    method Search(stop: StopHere) returns (r: Record)
      requires Valid()
      modifies this
      ensures Valid() && OnlyFetched() && View() == old(View())
      ensures r == Descent(View(), rank, stop) && Owner(r) in blockCache
    {
      ghost var v, rk := View(), rank;
      var cur := 0;
      var boundary := TailRecord;
      var block := blockCache[0];
      while true
        invariant Tracked() && OnlyFetched() && View() == v && ViewOk(v, rk)
        invariant cur in v && block.records == v[cur] && Stops(stop, boundary.path)
        invariant cur in blockCache && Owner(boundary) in blockCache
        invariant Find(v, rk, stop, cur, boundary) == Descent(v, rk, stop)
        decreases rk[cur]
      {
        var j, found, prev := Scan(block.records, boundary, stop);
        OwnedRecords(v, rk, cur);
        if prev.None? || prev.value.indirect < 0 {
          FindReturns(v, rk, stop, cur, boundary, j, found);
          return found;
        }
        var child := prev.value.indirect;
        FindDescends(v, rk, stop, cur, boundary, j, found);
        block := FetchBlock(child);
        cur := child;
        boundary := found;
      }
    }

    /** `FindFirstGreaterThan`: the record where a search for the first path above `p` stops. */
    method FindFirstGreaterThan(p: string) returns (r: Record)
      requires Valid()
      modifies this
      ensures Valid() && OnlyFetched() && View() == old(View())
      ensures Next() == old(Next()) && Threshold() == old(Threshold())
      ensures r == Descent(View(), rank, GreaterThan(p)) && Owner(r) in blockCache
      ensures r.path.None? || Below(p, r.path.value)
      ensures Placed(View(), GreaterThan(p), r)
    {
      r := Search(GreaterThan(p));
      DescentPlaced(View(), rank, GreaterThan(p));
    }

    /** `FindFirstGreaterEqual`: the record where a search for the first path at or above `p` stops. */
    method FindFirstGreaterEqual(p: string) returns (r: Record)
      requires Valid()
      modifies this
      ensures Valid() && OnlyFetched() && View() == old(View())
      ensures Next() == old(Next()) && Threshold() == old(Threshold())
      ensures r == Descent(View(), rank, GreaterEqual(p)) && Owner(r) in blockCache
      ensures r.path.None? || !Below(r.path.value, p)
      ensures Placed(View(), GreaterEqual(p), r)
    {
      r := Search(GreaterEqual(p));
      DescentPlaced(View(), rank, GreaterEqual(p));
    }

    /** `FindFirstEqual`: the record for `path` when the search finds it, else the tail record. */
    method FindFirstEqual(path: string) returns (r: Record)
      requires Valid()
      modifies this
      ensures Valid() && OnlyFetched() && View() == old(View())
      ensures Next() == old(Next()) && Threshold() == old(Threshold())
      ensures var found := Descent(View(), rank, GreaterEqual(path));
        r == if found.path == Some(path) then found else TailRecord
      ensures r.path == Some(path) || r == TailRecord
      ensures r != TailRecord ==> Located(View(), r) && Owner(r) in blockCache
      ensures Lookup(View(), rank, path) == if r == TailRecord then None else Some(FileInfo(r.fileExists, r.fileLength))
    {
      r := FindFirstGreaterEqual(path);
      if r.path == Some(path) {
        return;
      }
      r := TailRecord;
    }

    /**
     * Replace the records of cached block `id` and mark it dirty (the common
     * tail of the record setters, `Insert` and `Split`).
     */
    method PutRecords(id: int, list: seq<Record>)
      requires Tracked() && id in blockCache && AllOwned(list, id)
      modifies this
      ensures Tracked() && Next() == old(Next()) && Threshold() == old(Threshold()) && rank == old(rank)
      ensures blockCache == old(blockCache)[id := old(blockCache)[id].(records := list)]
      ensures View() == old(View())[id := list]
      ensures changes == old(changes) + 1
      ensures old(dirtyCount) < DirtyCommitLimit ==>
        dirtyCount == old(dirtyCount) + 1 && dirty == old(dirty) + {id} && storage == old(storage)
      ensures old(dirtyCount) == DirtyCommitLimit ==>
        dirtyCount == 0 && dirty == {} && Flushed(storage, old(storage), blockCache, old(dirty) + {id})
    {
      ViewOfPut(blockCache, storage, Next(), id, list);
      blockCache := blockCache[id := blockCache[id].(records := list)];
      assert Persisted({id});
      SetBlockDirty(id);
    }

    /** The `fileExists` setter of record `k` of block `id`: store the flag and mark the block dirty. */
    method SetFileExists(id: int, k: int, fileExists: bool)
      requires Tracked() && id in blockCache && 0 <= k < |blockCache[id].records|
      modifies this
      ensures Tracked() && Next() == old(Next()) && Threshold() == old(Threshold()) && rank == old(rank)
      ensures blockCache.Keys == old(blockCache).Keys
      ensures View() == old(View())[id := old(View())[id][k := old(View())[id][k].(fileExists := fileExists)]]
      ensures changes == old(changes) + 1
      ensures old(dirtyCount) < DirtyCommitLimit ==>
        dirtyCount == old(dirtyCount) + 1 && dirty == old(dirty) + {id} && storage == old(storage)
      ensures old(dirtyCount) == DirtyCommitLimit ==>
        dirtyCount == 0 && dirty == {} && Flushed(storage, old(storage), blockCache, old(dirty) + {id})
    {
      var list := blockCache[id].records;
      PutRecords(id, list[k := list[k].(fileExists := fileExists)]);
    }

    /** The `fileLength` setter of record `k` of block `id`: store the length and mark the block dirty. */
    method SetFileLength(id: int, k: int, fileLength: int)
      requires Tracked() && id in blockCache && 0 <= k < |blockCache[id].records|
      modifies this
      ensures Tracked() && Next() == old(Next()) && Threshold() == old(Threshold()) && rank == old(rank)
      ensures blockCache.Keys == old(blockCache).Keys
      ensures View() == old(View())[id := old(View())[id][k := old(View())[id][k].(fileLength := fileLength)]]
      ensures changes == old(changes) + 1
      ensures old(dirtyCount) < DirtyCommitLimit ==>
        dirtyCount == old(dirtyCount) + 1 && dirty == old(dirty) + {id} && storage == old(storage)
      ensures old(dirtyCount) == DirtyCommitLimit ==>
        dirtyCount == 0 && dirty == {} && Flushed(storage, old(storage), blockCache, old(dirty) + {id})
    {
      var list := blockCache[id].records;
      PutRecords(id, list[k := list[k].(fileLength := fileLength)]);
    }

    /**
     * `ManifestBlock.Insert`: put `newRecord` into block `id` at the index of
     * the record with the path of `before`, or at the end when `before` is the
     * tail record, and mark the block dirty.
     */
    method Insert(id: int, newRecord: Record, before: Record)
      requires Tracked() && id in blockCache
      requires IsTailRecord(before) || before.block == Some(id)
      requires newRecord.block == Some(id) && WellFormed(newRecord)
      requires !IsTailRecord(before) ==> IndexOfPath(blockCache[id].records, before.path.value) >= 0
      modifies this
      ensures Tracked() && Next() == old(Next()) && Threshold() == old(Threshold()) && rank == old(rank)
      ensures blockCache.Keys == old(blockCache).Keys
      ensures View() == old(View())[id := InsertBefore(old(View())[id], newRecord, before)]
      ensures changes == old(changes) + 1
      ensures old(dirtyCount) < DirtyCommitLimit ==>
        dirtyCount == old(dirtyCount) + 1 && dirty == old(dirty) + {id} && storage == old(storage)
      ensures old(dirtyCount) == DirtyCommitLimit ==>
        dirtyCount == 0 && dirty == {} && Flushed(storage, old(storage), blockCache, old(dirty) + {id})
    {
      var list := blockCache[id].records;
      var k := if IsTailRecord(before) then |list| else IndexOfPath(list, before.path.value);
      PutRecords(id, list[..k] + [newRecord] + list[k..]);
    }

    /** The first loop of `ManifestBlock.Split`: create `SplitWays` blocks with consecutive fresh ids. */
    method CreateSubBlocks() returns (subBlocks: seq<int>)
      requires Tracked()
      modifies this
      ensures Tracked() && |subBlocks| == SplitWays && Threshold() == old(Threshold())
      ensures Next() == old(Next()) + SplitWays
      ensures forall i | 0 <= i < SplitWays :: subBlocks[i] == old(Next()) + i
      ensures forall x | old(Next()) <= x < Next() :: x in blockCache
      ensures View() == Grown(old(View()), old(Next()), SplitWays)
      ensures old(blockCache).Keys <= blockCache.Keys
      ensures changes == old(changes) + SplitWays
    {
      ghost var v0, c0 := View(), Next();
      subBlocks := [];
      while |subBlocks| < SplitWays
        invariant Tracked() && |subBlocks| <= SplitWays && Threshold() == old(Threshold())
        invariant Next() == c0 + |subBlocks|
        invariant forall i | 0 <= i < |subBlocks| :: subBlocks[i] == c0 + i
        invariant forall x | c0 <= x < Next() :: x in blockCache
        invariant View() == Grown(v0, c0, |subBlocks|)
        invariant old(blockCache).Keys <= blockCache.Keys
        invariant changes == old(changes) + |subBlocks|
      {
        ghost var n := |subBlocks|;
        var c := CreateBlock();
        subBlocks := subBlocks + [c];
        assert Grown(v0, c0, n + 1) == Grown(v0, c0, n)[c0 + n := []];
      }
    }

    /**
     * The rest of `ManifestBlock.Split` once the children exist: child `i`
     * gets its range of the records of block `id`, re-owned, and is marked
     * dirty; block `id` is left with one pointer record per child and is
     * marked dirty.
     */
    method FillSubBlocks(id: int, subBlocks: seq<int>)
      requires Tracked() && id in blockCache && |blockCache[id].records| >= 1
      requires |subBlocks| == SplitWays
      requires forall i | 0 <= i < SplitWays :: subBlocks[i] in blockCache && subBlocks[i] != id
      requires subBlocks[0] != subBlocks[1]
      modifies this
      ensures Tracked() && Next() == old(Next()) && Threshold() == old(Threshold()) && rank == old(rank)
      ensures blockCache.Keys == old(blockCache).Keys
      ensures var list := old(blockCache)[id].records;
        View() == old(View())[subBlocks[0] := SplitChild(list, 0, subBlocks[0])][subBlocks[1] := SplitChild(list, 1, subBlocks[1])]
          [id := SplitParent(list, subBlocks[0], subBlocks[1])]
      ensures changes == old(changes) + SplitWays + 1
    {
      var list := blockCache[id].records;
      var parent := [];
      for i := 0 to SplitWays
        invariant Tracked() && Next() == old(Next()) && Threshold() == old(Threshold()) && rank == old(rank)
        invariant blockCache.Keys == old(blockCache).Keys && blockCache[id].records == list
        invariant changes == old(changes) + i
        invariant View() == if i == 0 then old(View())
          else if i == 1 then old(View())[subBlocks[0] := SplitChild(list, 0, subBlocks[0])]
          else old(View())[subBlocks[0] := SplitChild(list, 0, subBlocks[0])][subBlocks[1] := SplitChild(list, 1, subBlocks[1])]
        invariant |parent| == i && forall j | 0 <= j < i :: parent[j] == ReplaceIndirect(list[SplitIndex(j, |list|)], subBlocks[j])
      {
        var lo, hi := SplitIndex(i, |list|), SplitIndex(i + 1, |list|);
        assert lo <= hi <= |list| && lo < |list| by {
          assert i * |list| <= (i + 1) * |list| <= SplitWays * |list|;
        }
        PutRecords(subBlocks[i], Reowned(list[lo..hi], subBlocks[i]));
        parent := parent + [ReplaceIndirect(list[lo], subBlocks[i])];
      }
      assert parent == SplitParent(list, subBlocks[0], subBlocks[1]);
      PutRecords(id, parent);
    }

    /**
     * The block edits of `ManifestBlock.Split`: create two blocks, give each
     * half of the records of block `id`, and leave in `id` one pointer record
     * per child.
     */
    method SplitBlocks(id: int)
      requires Tracked() && id in blockCache && |blockCache[id].records| >= 1
      modifies this
      ensures Tracked() && Next() == old(Next()) + SplitWays && Threshold() == old(Threshold())
      ensures View() == SplitView(old(View()), id, old(Next()))
      ensures changes == old(changes) + 2 * SplitWays + 1
    {
      ghost var v0, c0 := View(), Next();
      assert |v0[id]| >= 1 && c0 !in v0 && c0 + 1 !in v0;
      var subBlocks := CreateSubBlocks();
      ghost var list := blockCache[id].records;
      assert list == View()[id] == v0[id];
      GrownThenSplit(v0, View(), list, id, c0, subBlocks[0], subBlocks[1]);
      FillSubBlocks(id, subBlocks);
    }

    /**
     * `ManifestBlock.Split` of a block with two or more records. The tree
     * invariant is kept under a rank that puts the children where `id` was
     * and `id` one above.
     */
    method Split(id: int)
      requires Valid() && id in blockCache && |blockCache[id].records| >= 2
      modifies this
      ensures Valid() && Next() == old(Next()) + SplitWays && Threshold() == old(Threshold())
      ensures View() == SplitView(old(View()), id, old(Next()))
      ensures rank == SplitRank(old(rank), id, old(Next()))
      ensures changes == old(changes) + 2 * SplitWays + 1
    {
      ghost var v0, r0, c0 := View(), rank, Next();
      SplitKeepsViewOk(v0, r0, id, c0);
      SplitBlocks(id);
      rank := SplitRank(r0, id, c0);
    }

    /** The `fileExists` and then the `fileLength` setter on record `k` of block `id`. */
    method SetFields(id: int, k: int, fileExists: bool, fileLength: int)
      requires Tracked() && id in blockCache && 0 <= k < |blockCache[id].records|
      modifies this
      ensures Tracked() && Next() == old(Next()) && Threshold() == old(Threshold()) && rank == old(rank)
      ensures View() == old(View())[id := old(View())[id][k := old(View())[id][k].(fileExists := fileExists, fileLength := fileLength)]]
      ensures changes == old(changes) + 2
    {
      ghost var v0: map<int, seq<Record>> := View();
      SetFileExists(id, k, fileExists);
      ghost var v1: map<int, seq<Record>> := View();
      SetFileLength(id, k, fileLength);
      assert v1[id][k := v1[id][k].(fileLength := fileLength)] == v0[id][k := v0[id][k].(fileExists := fileExists, fileLength := fileLength)];
    }

    /**
     * The `fileExists` and then the `fileLength` setter on the located record
     * `r`, as `Add` and `Remove` use them: only that record changes, in place.
     */
    method MarkRecord(r: Record, fileExists: bool, fileLength: int)
      requires Valid() && Located(View(), r) && !IsTailRecord(r) && Owner(r) in blockCache
      modifies this
      ensures Valid() && Next() == old(Next()) && Threshold() == old(Threshold()) && rank == old(rank)
      ensures View() == Mark(old(View()), r, fileExists, fileLength)
      ensures changes == old(changes) + 2
    {
      ghost var v0 := View();
      var o := r.block.value;
      var k := IndexOfPath(blockCache[o].records, r.path.value);
      assert k == Position(v0, r);
      SetFields(o, k, fileExists, fileLength);
      MarkKeepsViewOk(v0, rank, r, fileExists, fileLength);
    }

    /**
     * `Add`: when the search for `path` finds a record with that path, mark it
     * existing with the new length; otherwise insert a new record before the
     * one found, in the block owning it (the root for the tail record), and
     * split that block once when it has grown past the split threshold.
     */
    method Add(path: string, fileLength: int)
      requires Valid()
      modifies this
      ensures Valid() && Threshold() == old(Threshold())
      ensures var r := old(Descent(View(), rank, GreaterEqual(path)));
        var w := AddView(old(View()), old(rank), path, fileLength);
        if r.path == Some(path) || |w[Owner(r)]| <= old(Threshold()) then
          View() == w && rank == old(rank) && Next() == old(Next())
        else
          View() == SplitView(w, Owner(r), old(Next())) && rank == SplitRank(old(rank), Owner(r), old(Next())) &&
          Next() == old(Next()) + SplitWays
      ensures var r := old(Descent(View(), rank, GreaterEqual(path)));
        var w := AddView(old(View()), old(rank), path, fileLength);
        changes == old(changes) +
          if r.path == Some(path) then 2 else if |w[Owner(r)]| <= old(Threshold()) then 1 else 2 * SplitWays + 2
      ensures Lookup(View(), rank, path) == Some(FileInfo(true, fileLength))
      ensures forall q | q != path :: Lookup(View(), rank, q) == old(Lookup(View(), rank, q))
    {
      ghost var v0, r0, c0 := View(), rank, Next();
      var r := FindFirstGreaterEqual(path);
      ghost var w := AddView(v0, r0, path, fileLength);
      if r.path == Some(path) {
        MarkRecord(r, true, fileLength);
      } else {
        var o := if r.block.None? then 0 else r.block.value;
        Insert(o, NewRecord(o, path, fileLength), r);
        assert View() == w;
        if |blockCache[o].records| > Threshold() {
          Split(o);
          forall q
            ensures Lookup(View(), rank, q) == Lookup(w, r0, q)
          {
            SplitKeepsLookup(w, r0, o, c0, q);
          }
        }
      }
      AddFinds(v0, r0, path, fileLength);
      forall q | q != path
        ensures Lookup(w, r0, q) == Lookup(v0, r0, q)
      {
        AddKeepsOthers(v0, r0, path, fileLength, q);
      }
    }

    /**
     * `Remove`: when the search for `p` finds a record with that path, mark it
     * not existing with length -1 (a soft delete); otherwise do nothing.
     */
    method Remove(p: string)
      requires Valid()
      modifies this
      ensures Valid() && Next() == old(Next()) && Threshold() == old(Threshold()) && rank == old(rank)
      ensures View() == RemoveView(old(View()), old(rank), p)
      ensures changes == old(changes) + if old(Lookup(View(), rank, p)).Some? then 2 else 0
      ensures Lookup(View(), rank, p) == if old(Lookup(View(), rank, p)).Some? then Some(FileInfo(false, -1)) else None
      ensures forall q | q != p :: Lookup(View(), rank, q) == old(Lookup(View(), rank, q))
    {
      ghost var v0, r0 := View(), rank;
      var r := FindFirstEqual(p);
      if !IsTailRecord(r) {
        MarkRecord(r, false, -1);
      }
      RemoveClears(v0, r0, p);
      forall q | q != p
        ensures Lookup(View(), rank, q) == Lookup(v0, r0, q)
      {
        RemoveKeepsOthers(v0, r0, p, q);
      }
    }

    /**
     * The `Manifest` constructor: fetch the root block from storage (with a
     * fresh superblock when none is stored). `rank` is the ranking under which
     * the stored blocks form a tree.
     */
    constructor (storage: Storage, ghost rank: Rank)
      requires StoreOk(storage, rank)
      ensures Valid() && this.storage == storage && this.rank == rank
      ensures blockCache == map[0 := LoadBlock(storage, 0)] && dirty == {} && dirtyCount == 0
      ensures View() == ViewOf(map[], storage, Next())
    {
      this.storage := storage;
      blockCache := map[0 := LoadBlock(storage, 0)];
      dirty := {};
      dirtyCount := 0;
      changes := 0;
      this.rank := rank;
      new;
      ViewOfFetch(map[], storage, Next(), 0);
    }
  }
}
