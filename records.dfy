/**
 * One manifest entry (`Manifest.ManifestRecord`) and the list-level helpers
 * that a block's ordered record list needs: the stop predicates of a search,
 * strict ascending order, and the by-path index lookup.
 */
module Records {
  import opened Wrappers
  import opened Paths

  /**
   * A path entry. `block` is the id of the owning block (null for the tail
   * record), `path` is null only for the tail record, and `indirect` is the id
   * of a child block covering the keys from this path up to the next record's,
   * or a negative number (-1) when there is none.
   */
  datatype Record = Record(
    block: Option<int>,
    path: Option<string>,
    fileExists: bool,
    fileLength: int,
    indirect: int)

  /** The shared "past every key" record: no path, no block, length -1, no child. */
  const TailRecord := Record(None, None, false, -1, -1)

  predicate IsTailRecord(r: Record) {
    r.path.None?
  }

  /** The constructor's consistency demand: an owned record has a path. */
  predicate WellFormed(r: Record) {
    r.block.Some? ==> r.path.Some?
  }

  /** The same entry, owned by another block. */
  function ReplaceBlock(r: Record, id: int): (r': Record)
    ensures r'.block == Some(id) && r'.(block := r.block) == r
    ensures r.path.Some? ==> WellFormed(r')
  {
    r.(block := Some(id))
  }

  /** The same entry, pointing at another child block. */
  function ReplaceIndirect(r: Record, child: int): (r': Record)
    ensures r'.indirect == child && r'.(indirect := r.indirect) == r
    ensures WellFormed(r) ==> WellFormed(r')
  {
    r.(indirect := child)
  }

  /** The two stop predicates a search is run with. */
  datatype StopHere = GreaterThan(p: string) | GreaterEqual(p: string)

  /** Whether a search stops at a record with path `key`; null (the tail) always stops. */
  predicate Stops(stop: StopHere, key: Option<string>)
    ensures key.None? ==> Stops(stop, key)
  {
    match stop
    case GreaterThan(p) => key.None? || Below(p, key.value)
    case GreaterEqual(p) => key.None? || !Below(key.value, p)
  }

  /** Every record has a path and the paths strictly ascend. */
  predicate Ascending(list: seq<Record>) {
    (forall i | 0 <= i < |list| :: list[i].path.Some?) &&
    (forall i, j | 0 <= i < j < |list| :: KeyBelow(list[i].path, list[j].path))
  }

  /** `List.FindIndex` with a path-equality match: the first index holding `path`, or -1. */
  function IndexOfPath(list: seq<Record>, path: string): (k: int)
    ensures -1 <= k < |list|
    ensures 0 <= k ==> list[k].path == Some(path)
    ensures forall i | 0 <= i < |list| && (k < 0 || i < k) :: list[i].path != Some(path)
  {
    if |list| == 0 then -1
    else if list[0].path == Some(path) then 0
    else
      var k := IndexOfPath(list[1..], path);
      if k < 0 then -1 else k + 1
  }

  /** In a strictly ascending list the by-path lookup finds each record at its own index. */
  lemma IndexOfAscending(list: seq<Record>, j: int)
    requires Ascending(list) && 0 <= j < |list|
    ensures IndexOfPath(list, list[j].path.value) == j
  {
    var k := IndexOfPath(list, list[j].path.value);
    if k < j {
      assert KeyBelow(list[k].path, list[j].path);
      KeyBelowIrreflexive(list[j].path);
    }
  }

  /** Index of the first record at which the search stops, or `|list|` when none does. */
  function FirstStop(list: seq<Record>, stop: StopHere): (j: nat)
    ensures j <= |list|
    ensures forall i | 0 <= i < j :: !Stops(stop, list[i].path)
    ensures j < |list| ==> Stops(stop, list[j].path)
  {
    if |list| == 0 || Stops(stop, list[0].path) then 0
    else 1 + FirstStop(list[1..], stop)
  }

  /**
   * Scanning a block followed by a boundary record: the first index of the
   * scan where the search stops is `FirstStop` of the block.
   */
  lemma ScanStop(list: seq<Record>, boundary: Record, stop: StopHere, j: int)
    requires 0 <= j <= |list|
    requires forall i | 0 <= i < j :: !Stops(stop, (list + [boundary])[i].path)
    requires Stops(stop, (list + [boundary])[j].path)
    ensures j == FirstStop(list, stop)
    ensures (list + [boundary])[j] == if j < |list| then list[j] else boundary
  {
    var scan := list + [boundary];
    assert forall i | 0 <= i < |list| :: scan[i] == list[i];
  }

  /** A record at which a `GreaterEqual(p)` search does not stop sorts strictly before `p`. */
  lemma PassedIsBelow(p: string, key: Option<string>)
    requires !Stops(GreaterEqual(p), key)
    ensures KeyBelow(key, Some(p))
  {
  }

  /** A record at which a `GreaterEqual(p)` search stops, other than `p` itself, sorts after `p`. */
  lemma StoppedIsAbove(p: string, key: Option<string>)
    requires Stops(GreaterEqual(p), key) && key != Some(p)
    ensures KeyBelow(Some(p), key)
  {
    KeyTotal(key, Some(p));
  }
}
