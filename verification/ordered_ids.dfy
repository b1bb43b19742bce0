/**
 Dump ids. The managers keep their entries in a map ordered by id and always evict from its
 beginning, so what they keep is a suffix of the ids. This module gives the theory of such suffixes,
 and of sums over the directories of a disk, that the quota proofs share.
 */
module OrderedIds {
  import opened Wrappers

  /** Ids are 32-bit counters. */
  const U32 := 0x1_0000_0000

  function NextId(last: nat): nat {
    (last + 1) % U32
  }

  /** How many entries the count limit removes (0 for no limit): one place below the limit is left for the new dump. */
  function Excess(count: nat, limit: nat): (n: nat)
    ensures n <= count
  {
    if limit == 0 || count < limit then 0 else count - (limit - 1)
  }

  ghost predicate IsOldest(id: nat, ids: set<nat>) {
    id in ids && forall j :: j in ids ==> id <= j
  }

  /** The first key of an ordered map. */
  function Oldest(ids: set<nat>): (id: nat)
    requires ids != {}
    ensures id in ids && forall j :: j in ids ==> id <= j
  {
    OldestExists(ids);
    var id :| id in ids && forall j :: j in ids ==> id <= j;
    id
  }

  lemma {:induction false} OldestExists(ids: set<nat>)
    requires ids != {}
    ensures exists id :: id in ids && forall j :: j in ids ==> id <= j
  {
    var id := OldestOf(ids);
  }

  lemma {:induction false} OldestOf(ids: set<nat>) returns (id: nat)
    requires ids != {}
    ensures IsOldest(id, ids)
    decreases |ids|
  {
    var k :| k in ids;
    var rest := ids - {k};
    if rest == {} {
      id := k;
      assert ids == {k};
    } else {
      var m := OldestOf(rest);
      id := if k < m then k else m;
      assert ids == rest + {k};
    }
  }

  /** kept holds every id of ids that is not older than some kept id. */
  ghost predicate IsSuffix(kept: set<nat>, ids: set<nat>) {
    kept <= ids && forall a, b :: a in ids && b in kept && b <= a ==> a in kept
  }

  ghost function DropOldest(ids: set<nat>, n: nat): set<nat>
    decreases n
  {
    if n == 0 || ids == {} then ids else DropOldest(ids - {Oldest(ids)}, n - 1)
  }

  lemma {:induction false} DropOldestIsSuffix(ids: set<nat>, n: nat)
    ensures IsSuffix(DropOldest(ids, n), ids)
    ensures |DropOldest(ids, n)| == Max(|ids| - n, 0)
    decreases n
  {
    if n == 0 || ids == {} {
    } else {
      DropOldestIsSuffix(ids - {Oldest(ids)}, n - 1);
    }
  }

  /** Suffixes of one set are ordered by their size, so a suffix is determined by its size. */
  lemma {:induction false} SuffixesAreChain(t: set<nat>, u: set<nat>, ids: set<nat>)
    requires IsSuffix(t, ids) && IsSuffix(u, ids) && |t| <= |u|
    ensures t <= u
  {
    if !(t <= u) {
      var x :| x in t && x !in u;
      assert u <= t - {x};
      CardinalityMonotone(u, t - {x});
      assert false;
    }
  }

  /** The suffix of a given size. */
  ghost function Youngest(ids: set<nat>, count: nat): (kept: set<nat>)
    requires count <= |ids|
    ensures IsSuffix(kept, ids) && |kept| == count
  {
    DropOldestIsSuffix(ids, |ids| - count);
    var kept :| IsSuffix(kept, ids) && |kept| == count;
    kept
  }

  lemma {:induction false} CardinalityMonotone<T>(a: set<T>, b: set<T>)
    requires a <= b
    ensures |a| <= |b|
    ensures |a| == |b| ==> a == b
  {
    if a == {} {
    } else {
      var x :| x in a;
      CardinalityMonotone(a - {x}, b - {x});
    }
  }

  /** Total of a size function over the directories of a disk. */
  ghost function Total<D>(disk: map<nat, D>, size: D -> nat): nat
    decreases |disk|
  {
    if disk == map[] then 0
    else
      var k := Oldest(disk.Keys);
      size(disk[k]) + Total(disk - {k}, size)
  }

  lemma {:induction false} TotalRemove<D>(disk: map<nat, D>, size: D -> nat, k: nat)
    requires k in disk
    ensures Total(disk, size) == size(disk[k]) + Total(disk - {k}, size)
    decreases |disk|
  {
    var o := Oldest(disk.Keys);
    if o != k {
      var rest := disk - {o};
      TotalRemove(rest, size, k);
      var other := disk - {k};
      assert o in other.Keys && Oldest(other.Keys) in disk.Keys;
      assert rest - {k} == other - {o};
    }
  }

  /** Deleting a set of directories never grows a total. */
  lemma {:induction false} TotalShrinks<D>(disk: map<nat, D>, size: D -> nat, dirs: set<nat>)
    ensures Total(disk - dirs, size) <= Total(disk, size)
    decreases |disk|
  {
    if exists k :: k in dirs && k in disk {
      var k :| k in dirs && k in disk;
      TotalRemove(disk, size, k);
      TotalShrinks(disk - {k}, size, dirs);
      assert (disk - {k}) - dirs == disk - dirs;
    } else {
      assert disk - dirs == disk;
    }
  }

  lemma {:induction false} TotalScaled<D(!new)>(disk: map<nat, D>, size: D -> nat, units: D -> nat, unit: nat)
    requires forall d :: size(d) <= unit * units(d)
    ensures Total(disk, size) <= unit * Total(disk, units)
    decreases |disk|
  {
    if disk == map[] {
    } else {
      var k := Oldest(disk.Keys);
      TotalScaled(disk - {k}, size, units, unit);
      assert unit * (units(disk[k]) + Total(disk - {k}, units)) == unit * units(disk[k]) + unit * Total(disk - {k}, units);
    }
  }
}
