/**
 Quotas of the fault log manager: before each dump it evicts the oldest entries, first down to a
 count, then until enough space is free, recomputing the free space from the disk every time.
 */
module FaultLogQuota {
  import opened Wrappers
  import opened OrderedIds

  /** What a directory iterator yields; a special file is neither a directory nor a regular file. */
  datatype Node = File(bytes: nat) | Directory(children: seq<Node>) | Special

  ghost function Bytes(dir: seq<Node>): nat {
    if dir == [] then 0 else NodeBytes(dir[0]) + Bytes(dir[1..])
  }

  ghost function NodeBytes(node: Node): nat {
    match node
    case File(bytes) => bytes
    case Directory(children) => Bytes(children)
    case Special => 0
  }

  /** Build-time options, sizes in kilobytes; a limit of 0 means unlimited. */
  datatype Config = Config(limit: nat, minSpace: nat, maxSize: nat, totalSize: nat, rotation: bool)

  /** An entry is seen as the directory its file lies in; a dump in progress has no file yet; Null is a null pointer. */
  datatype Slot = Null | Pending | Filed(dir: nat)

  datatype Store = Store(entries: map<nat, Slot>, disk: map<nat, seq<Node>>)

  datatype Outcome = Proceed | QuotaExceeded | Crashed

  function DirsOf(entries: map<nat, Slot>, ids: set<nat>): set<nat> {
    set id | id in ids && id in entries && entries[id].Filed? :: entries[id].dir
  }

  /** The store once exactly the entries in kept survive and the others were deleted with their files. */
  ghost function Keep(s: Store, kept: set<nat>): Store {
    Store(s.entries - (s.entries.Keys - kept), s.disk - DirsOf(s.entries, s.entries.Keys - kept))
  }

  function Delete(s: Store, id: nat): Store
    requires id in s.entries
  {
    Store(s.entries - {id}, if s.entries[id].Filed? then s.disk - {s.entries[id].dir} else s.disk)
  }

  ghost function Evicted(s: Store, n: nat): Store
    decreases n
  {
    if n == 0 || s.entries == map[] then s else Evicted(Delete(s, Oldest(s.entries.Keys)), n - 1)
  }

  ghost function Allowed(disk: map<nat, seq<Node>>, cfg: Config): nat {
    var used := Total(disk, Bytes) / 1024;
    Min(if used > cfg.totalSize then 0 else cfg.totalSize - used, cfg.maxSize)
  }

  /**
   What the allowed size measures, in bytes: it is capped by the maximum, fits with what is on the disk
   into the total size, and below the maximum leaves no kilobyte of it unused.
   */
  ghost predicate Measures(size: nat, disk: map<nat, seq<Node>>, cfg: Config) {
    && size <= cfg.maxSize
    && (size > 0 ==> Total(disk, Bytes) + 1024 * size < 1024 * (cfg.totalSize + 1))
    && (size < cfg.maxSize ==> 1024 * (cfg.totalSize - size) <= Total(disk, Bytes))
  }

  lemma {:induction false} AllowedMeasures(disk: map<nat, seq<Node>>, cfg: Config)
    ensures Measures(Allowed(disk, cfg), disk, cfg)
  {
  }

  /** No other size measures the same. */
  lemma {:induction false} MeasuresOneSize(a: nat, b: nat, disk: map<nat, seq<Node>>, cfg: Config)
    requires Measures(a, disk, cfg) && Measures(b, disk, cfg)
    ensures a == b
  {
    hide Total;
  }

  // ----- eviction and suffixes ---------------------------------------------------------------

  /** The directories of some entries are that of one of them and those of the rest. */
  lemma {:induction false} FirstDirs(s: Store, id: nat, gone: set<nat>)
    requires id in gone && id in s.entries
    ensures DirsOf(s.entries, gone) ==
            (if s.entries[id].Filed? then {s.entries[id].dir} else {}) + DirsOf(s.entries - {id}, gone - {id})
  {
    var first := if s.entries[id].Filed? then {s.entries[id].dir} else {};
    var rest := DirsOf(s.entries - {id}, gone - {id});
    forall d | d in DirsOf(s.entries, gone)
      ensures d in first + rest
    {
      var k :| k in gone && k in s.entries && s.entries[k].Filed? && s.entries[k].dir == d;
      if k != id {
        assert k in gone - {id} && (s.entries - {id})[k] == s.entries[k];
      }
    }
    forall d | d in rest
      ensures d in DirsOf(s.entries, gone)
    {
      var k :| k in gone - {id} && k in s.entries - {id} && (s.entries - {id})[k].Filed? && (s.entries - {id})[k].dir == d;
      assert k in gone && s.entries[k].dir == d;
    }
  }

  /** Deleting one entry that is not kept first makes no difference. */
  lemma {:induction false} KeepAfterDelete(s: Store, id: nat, kept: set<nat>)
    requires id in s.entries && id !in kept
    ensures Keep(Delete(s, id), kept) == Keep(s, kept)
  {
    var next := Delete(s, id);
    var gone, rest := s.entries.Keys - kept, next.entries.Keys - kept;
    assert next.entries - rest == s.entries - gone;
    var first := if s.entries[id].Filed? then {s.entries[id].dir} else {};
    assert next.disk == s.disk - first;
    FirstDirs(s, id, gone);
    assert rest == gone - {id};
    assert next.disk - DirsOf(next.entries, rest) == s.disk - DirsOf(s.entries, gone);
  }

  /** Evicting n entries one by one is deleting all but a suffix at once. */
  lemma {:induction false} EvictedIsKeep(s: Store, n: nat)
    ensures Evicted(s, n) == Keep(s, DropOldest(s.entries.Keys, n))
    ensures Evicted(s, n).entries.Keys == DropOldest(s.entries.Keys, n)
    decreases n
  {
    hide Keep;
    if n == 0 || s.entries == map[] {
      KeepAll(s);
    } else {
      var id := Oldest(s.entries.Keys);
      var next := Delete(s, id);
      assert next.entries.Keys == s.entries.Keys - {id};
      var kept := DropOldest(next.entries.Keys, n - 1);
      EvictedIsKeep(next, n - 1);
      DropOldestIsSuffix(next.entries.Keys, n - 1);
      assert id !in kept;
      KeepAfterDelete(s, id, kept);
    }
  }

  lemma {:induction false} KeepAll(s: Store)
    ensures Keep(s, s.entries.Keys) == s
  {
    var none := s.entries.Keys - s.entries.Keys;
    assert none == {} && DirsOf(s.entries, none) == {};
    assert s.entries - {} == s.entries && s.disk - {} == s.disk;
  }

  lemma {:induction false} EvictedSize(s: Store, n: nat)
    ensures |Evicted(s, n).entries| == Max(|s.entries| - n, 0)
  {
    EvictedIsKeep(s, n);
    DropOldestIsSuffix(s.entries.Keys, n);
    assert |Evicted(s, n).entries| == |Evicted(s, n).entries.Keys|;
    assert |s.entries| == |s.entries.Keys|;
  }

  /** Every suffix is reached by evicting the right number of entries. */
  lemma {:induction false} SuffixIsEvicted(s: Store, kept: set<nat>)
    requires IsSuffix(kept, s.entries.Keys)
    ensures |kept| <= |s.entries|
    ensures Evicted(s, |s.entries| - |kept|) == Keep(s, kept)
  {
    CardinalityMonotone(kept, s.entries.Keys);
    assert |s.entries| == |s.entries.Keys|;
    var n := |s.entries| - |kept|;
    DropOldestIsSuffix(s.entries.Keys, n);
    var dropped := DropOldest(s.entries.Keys, n);
    SuffixesAreChain(dropped, kept, s.entries.Keys);
    SuffixesAreChain(kept, dropped, s.entries.Keys);
    EvictedIsKeep(s, n);
  }

  /** Deleting more entries never lowers the allowed size. */
  lemma {:induction false} AllowedGrows(s: Store, kept: set<nat>, fewer: set<nat>, cfg: Config)
    requires fewer <= kept
    ensures Allowed(Keep(s, kept).disk, cfg) <= Allowed(Keep(s, fewer).disk, cfg)
  {
    var small := DirsOf(s.entries, s.entries.Keys - kept);
    var large := DirsOf(s.entries, s.entries.Keys - fewer);
    assert (s.disk - small) - large == s.disk - large;
    TotalShrinks(s.disk - small, Bytes, large);
  }

  // ----- the two quota steps -----------------------------------------------------------------

  /** Evicting the oldest entry until there is enough space or nothing is left. */
  ghost function Spaced(s: Store, cfg: Config): Store
    decreases |s.entries|
  {
    if Allowed(s.disk, cfg) >= cfg.minSpace || s.entries == map[] then s
    else Spaced(Delete(s, Oldest(s.entries.Keys)), cfg)
  }

  /** What both steps leave. */
  ghost function Room(s: Store, cfg: Config): Store {
    Spaced(Evicted(s, Excess(|s.entries|, cfg.limit)), cfg)
  }

  /** On the way from s to s' a null slot is evicted. */
  ghost predicate MeetsNull(s: Store, s': Store) {
    exists id :: id in s.entries && id !in s'.entries && s.entries[id].Null?
  }

  /** s' is part of s, with the slots unchanged. */
  ghost predicate Within(s': Store, s: Store) {
    forall id :: id in s'.entries ==> id in s.entries && s'.entries[id] == s.entries[id]
  }

  lemma {:induction false} EvictedWithin(s: Store, n: nat)
    ensures Within(Evicted(s, n), s)
    ensures n > 0 && s.entries != map[] ==> Oldest(s.entries.Keys) !in Evicted(s, n).entries
    decreases n
  {
    if n == 0 || s.entries == map[] {
    } else {
      EvictedWithin(Delete(s, Oldest(s.entries.Keys)), n - 1);
    }
  }

  lemma {:induction false} SpacedWithin(s: Store, cfg: Config)
    ensures Within(Spaced(s, cfg), s)
    ensures Allowed(s.disk, cfg) < cfg.minSpace && s.entries != map[] ==> Oldest(s.entries.Keys) !in Spaced(s, cfg).entries
    decreases |s.entries|
  {
    if Allowed(s.disk, cfg) < cfg.minSpace && s.entries != map[] {
      hide Allowed;
      SpacedWithin(Delete(s, Oldest(s.entries.Keys)), cfg);
    }
  }

  /** A null slot met in the first step or in the second is one met on the whole way. */
  lemma {:induction false} NullsAddUp(s: Store, m: Store, s': Store)
    requires Within(m, s) && Within(s', m)
    ensures MeetsNull(s, s') <==> MeetsNull(s, m) || MeetsNull(m, s')
  {
    if id :| id in m.entries && id !in s'.entries && m.entries[id].Null? {
      assert id in s.entries && s.entries[id].Null?;
    }
  }

  lemma {:induction false} EvictedTwice(s: Store, n: nat, m: nat)
    ensures Evicted(Evicted(s, n), m) == Evicted(s, n + m)
    decreases n
  {
    if n == 0 || s.entries == map[] {
    } else {
      EvictedTwice(Delete(s, Oldest(s.entries.Keys)), n - 1, m);
    }
  }

  /** The shortest oldest-first eviction that leaves enough space. */
  ghost predicate SpaceAfter(s: Store, s': Store, cfg: Config, n: nat) {
    && n <= |s.entries|
    && s' == Evicted(s, n)
    && (forall m :: 0 <= m < n ==> Allowed(Evicted(s, m).disk, cfg) < cfg.minSpace)
    && (n < |s.entries| ==> Allowed(s'.disk, cfg) >= cfg.minSpace)
  }

  lemma {:induction false} SpacedIsShortest(s: Store, cfg: Config) returns (n: nat)
    ensures SpaceAfter(s, Spaced(s, cfg), cfg, n)
    decreases |s.entries|
  {
    if Allowed(s.disk, cfg) >= cfg.minSpace || s.entries == map[] {
      n := 0;
    } else {
      var next := Delete(s, Oldest(s.entries.Keys));
      var k := SpacedIsShortest(next, cfg);
      n := k + 1;
      hide Allowed, Spaced;
      forall m | 0 <= m < n
        ensures Allowed(Evicted(s, m).disk, cfg) < cfg.minSpace
      {
        if m > 0 {
          assert Evicted(s, m) == Evicted(next, m - 1);
        }
      }
    }
  }

  /** The shortest oldest-first eviction that meets the count and the space. */
  ghost predicate MadeRoom(s: Store, s': Store, cfg: Config) {
    exists n: nat :: RoomAfter(s, s', cfg, n)
  }

  ghost predicate RoomAfter(s: Store, s': Store, cfg: Config, n: nat) {
    var floor := Excess(|s.entries|, cfg.limit);
    && floor <= n <= |s.entries|
    && s' == Evicted(s, n)
    && (forall m :: floor <= m < n ==> Allowed(Evicted(s, m).disk, cfg) < cfg.minSpace)
    && (n < |s.entries| ==> Allowed(s'.disk, cfg) >= cfg.minSpace)
  }

  lemma {:induction false} RoomIsMade(s: Store, cfg: Config)
    ensures MadeRoom(s, Room(s, cfg), cfg)
  {
    var floor := Excess(|s.entries|, cfg.limit);
    var limited := Evicted(s, floor);
    EvictedSize(s, floor);
    var n := SpacedIsShortest(limited, cfg);
    forall m: nat
      ensures Evicted(limited, m) == Evicted(s, floor + m)
    {
      EvictedTwice(s, floor, m);
    }
    hide Allowed;
    assert forall m :: floor <= m < floor + n ==> Evicted(s, m) == Evicted(limited, m - floor);
    assert RoomAfter(s, Room(s, cfg), cfg, floor + n);
  }

  ghost predicate Acceptable(s: Store, kept: set<nat>, cfg: Config) {
    && IsSuffix(kept, s.entries.Keys)
    && (cfg.limit > 0 ==> |kept| < cfg.limit)
    && Allowed(Keep(s, kept).disk, cfg) >= cfg.minSpace
  }

  /**
   The survivors are the longest acceptable suffix: unless nothing is left, the acceptable suffixes
   are exactly those they contain, themselves included; if nothing is left, only the empty one can be.
   */
  lemma {:induction false} SurvivorsAreLongestSuffix(s: Store, s': Store, cfg: Config)
    requires MadeRoom(s, s', cfg)
    ensures s' == Keep(s, s'.entries.Keys)
    ensures s'.entries != map[] ==> Acceptable(s, s'.entries.Keys, cfg)
    ensures forall kept :: Acceptable(s, kept, cfg) ==> kept <= s'.entries.Keys
    ensures s'.entries != map[] ==>
              forall kept :: IsSuffix(kept, s.entries.Keys) && kept <= s'.entries.Keys ==> Acceptable(s, kept, cfg)
  {
    var n: nat :| RoomAfter(s, s', cfg, n);
    EvictedIsKeep(s, n);
    EvictedSize(s, n);
    DropOldestIsSuffix(s.entries.Keys, n);
    assert |s'.entries| == |s'.entries.Keys|;
    if s'.entries != map[] {
      assert n < |s.entries|;
    }
    forall kept | Acceptable(s, kept, cfg)
      ensures kept <= s'.entries.Keys
    {
      SuffixIsEvicted(s, kept);
      var m := |s.entries| - |kept|;
      assert m >= n;
      SuffixesAreChain(kept, s'.entries.Keys, s.entries.Keys);
    }
    if s'.entries != map[] {
      forall kept | IsSuffix(kept, s.entries.Keys) && kept <= s'.entries.Keys
        ensures Acceptable(s, kept, cfg)
      {
        CardinalityMonotone(kept, s'.entries.Keys);
        AllowedGrows(s, s'.entries.Keys, kept, cfg);
      }
    }
  }

  /** The result is determined by the store and the options alone. */
  lemma {:induction false} RoomIsUnique(s: Store, a: Store, b: Store, cfg: Config)
    requires MadeRoom(s, a, cfg) && MadeRoom(s, b, cfg)
    ensures a == b
  {
    SurvivorsAreLongestSuffix(s, a, cfg);
    SurvivorsAreLongestSuffix(s, b, cfg);
    assert a.entries.Keys == b.entries.Keys;
  }

  /** Options whose minimum exceeds the maximum evict everything, because the allowed size is capped. */
  lemma {:induction false} MinimumAboveMaximumKeepsNothing(s: Store, s': Store, cfg: Config)
    requires MadeRoom(s, s', cfg) && cfg.minSpace > cfg.maxSize
    ensures s'.entries == map[]
  {
    SurvivorsAreLongestSuffix(s, s', cfg);
  }

  /** The allowed size once every entry and its files are gone. */
  ghost function Emptied(s: Store, cfg: Config): nat {
    Allowed(Keep(s, {}).disk, cfg)
  }

  /**
   Whether there is enough space in the end, and whether there is none at all, is known beforehand: it
   depends on what is left of the disk without any entry.
   */
  lemma {:induction false} OutcomeIsForeseen(s: Store, cfg: Config)
    ensures var t := Room(s, cfg);
            && (Allowed(t.disk, cfg) < cfg.minSpace <==> Emptied(s, cfg) < cfg.minSpace)
            && (cfg.minSpace > 0 ==>
                  (t.entries == map[] && Allowed(t.disk, cfg) == 0 <==> Emptied(s, cfg) == 0))
  {
    var t := Room(s, cfg);
    RoomIsMade(s, cfg);
    SurvivorsAreLongestSuffix(s, t, cfg);
    AllowedGrows(s, t.entries.Keys, {}, cfg);
    hide MadeRoom, Room, Allowed;
    if t.entries == map[] {
      assert t.entries.Keys == {};
    }
  }

  lemma {:induction false} DeletesNoNull(s: Store, id: nat)
    requires id in s.entries && !s.entries[id].Null?
    ensures Within(Delete(s, id), s) && !MeetsNull(s, Delete(s, id))
    ensures |Delete(s, id).entries| < |s.entries|
  {
  }

  // ----- the manager -------------------------------------------------------------------------

  method CalculateDirectorySize(directory: seq<Node>) returns (size: nat)
    ensures size == Bytes(directory)
  {
    size := 0;
    for i := 0 to |directory|
      invariant size + Bytes(directory[i..]) == Bytes(directory)
    {
      match directory[i] {
        case Directory(children) =>
          var sub := CalculateDirectorySize(children);
          size := size + sub;
        case File(bytes) => size := size + bytes;
        case Special =>
      }
    }
  }

  class Manager {
    const cfg: Config
    var entries: map<nat, Slot>
    var disk: map<nat, seq<Node>>

    constructor (cfg: Config, disk: map<nat, seq<Node>>)
      ensures this.cfg == cfg && View() == Store(map[], disk)
    {
      this.cfg := cfg;
      entries, this.disk := map[], disk;
    }

    ghost function View(): Store
      reads this
    {
      Store(entries, disk)
    }

    method GetAllowedSize() returns (size: nat)
      ensures size == Allowed(disk, cfg) && Measures(size, disk, cfg)
    {
      AllowedMeasures(disk, cfg);
      size := 0;
      var rest := disk;
      while rest != map[]
        invariant size + Total(rest, Bytes) == Total(disk, Bytes)
        decreases |rest|
      {
        var k := Oldest(rest.Keys);
        var sub := CalculateDirectorySize(rest[k]);
        TotalRemove(rest, Bytes, k);
        size := size + sub;
        rest := rest - {k};
      }
      size := size / 1024;
      size := if size > cfg.totalSize then 0 else cfg.totalSize - size;
      if size > cfg.maxSize {
        size := cfg.maxSize;
      }
    }

    method DeleteEntry(id: nat)
      requires id in entries && !entries[id].Null?
      modifies this
      ensures View() == Delete(old(View()), id)
    {
      if entries[id].Filed? {
        disk := disk - {entries[id].dir};
      }
      entries := entries - {id};
    }

    /** The count limit; crashed tells that the walk met a null slot. */
    method LimitDumpEntries() returns (crashed: bool)
      modifies this
      ensures crashed <==> MeetsNull(old(View()), Evicted(old(View()), Excess(old(|entries|), cfg.limit)))
      ensures !crashed ==> View() == Evicted(old(View()), Excess(old(|entries|), cfg.limit))
    {
      if cfg.limit == 0 || |entries| < cfg.limit {
        return false;
      }
      var excess := |entries| - (cfg.limit - 1);
      ghost var start, target := View(), Evicted(View(), excess);
      while excess > 0 && entries != map[]
        invariant 0 <= excess && Evicted(View(), excess) == target
        invariant Within(View(), start) && !MeetsNull(start, View())
        decreases excess
      {
        var d := Oldest(entries.Keys);
        EvictedWithin(View(), excess);
        if entries[d].Null? {
          NullsAddUp(start, View(), target);
          assert MeetsNull(View(), target);
          return true;
        }
        ghost var before := View();
        DeleteEntry(d);
        DeletesNoNull(before, d);
        NullsAddUp(start, before, View());
        excess := excess - 1;
      }
      crashed := false;
    }

    /** With rotation off nothing is evicted and too little space is an error at once. */
    method LimitTotalDumpSize() returns (r: Outcome)
      modifies this
      ensures !cfg.rotation ==> View() == old(View()) && !r.Crashed?
                                && (r.QuotaExceeded? <==> Allowed(disk, cfg) < cfg.minSpace)
      ensures cfg.rotation ==>
                var target := Spaced(old(View()), cfg);
                && (r.Crashed? <==> MeetsNull(old(View()), target))
                && (!r.Crashed? ==> View() == target
                                    && (r.QuotaExceeded? <==>
                                        entries == map[] && Allowed(disk, cfg) == 0 && cfg.minSpace > 0))
    {
      hide Allowed, Delete;
      var size := GetAllowedSize();
      if size >= cfg.minSpace {
        return Proceed;
      }
      if !cfg.rotation {
        return QuotaExceeded;
      }
      ghost var start, target := View(), Spaced(View(), cfg);
      while entries != map[]
        invariant size == Allowed(disk, cfg) < cfg.minSpace
        invariant Spaced(View(), cfg) == target
        invariant Within(View(), start) && !MeetsNull(start, View())
        decreases |entries|
      {
        var d := Oldest(entries.Keys);
        SpacedWithin(View(), cfg);
        if entries[d].Null? {
          NullsAddUp(start, View(), target);
          assert MeetsNull(View(), target);
          return Crashed;
        }
        ghost var before := View();
        DeleteEntry(d);
        DeletesNoNull(before, d);
        assert |View().entries| < |before.entries|;
        NullsAddUp(start, before, View());
        size := GetAllowedSize();
        if size >= cfg.minSpace {
          break;
        }
      }
      size := GetAllowedSize();
      r := if |entries| == 0 && size == 0 then QuotaExceeded else Proceed;
    }

    /**
     The start of createDump. With rotation on it leaves the longest acceptable suffix unless a null slot
     is to be evicted; whether the dump is refused, and whether it starts with less than the minimum, is
     decided by the space that would be left without any entry.
     */
    method MakeRoom() returns (r: Outcome)
      modifies this
      ensures cfg.rotation ==>
                && (r.Crashed? <==> MeetsNull(old(View()), Room(old(View()), cfg)))
                && (!r.Crashed? ==>
                      && View() == Room(old(View()), cfg) && MadeRoom(old(View()), View(), cfg)
                      && (r.QuotaExceeded? <==> cfg.minSpace > 0 && Emptied(old(View()), cfg) == 0)
                      && (r.Proceed? && Allowed(disk, cfg) < cfg.minSpace <==>
                          0 < Emptied(old(View()), cfg) < cfg.minSpace)
                      && (0 < cfg.minSpace <= Emptied(old(View()), cfg) ==>
                            Total(disk, Bytes) + 1024 * cfg.minSpace < 1024 * (cfg.totalSize + 1)))
      ensures !cfg.rotation ==>
                var limited := Evicted(old(View()), Excess(old(|entries|), cfg.limit));
                && (r.Crashed? <==> MeetsNull(old(View()), limited))
                && (!r.Crashed? ==> View() == limited
                                    && (r.QuotaExceeded? <==> Allowed(limited.disk, cfg) < cfg.minSpace))
    {
      ghost var start := View();
      ghost var limited := Evicted(start, Excess(|entries|, cfg.limit));
      EvictedWithin(start, Excess(|entries|, cfg.limit));
      SpacedWithin(limited, cfg);
      NullsAddUp(start, limited, Room(start, cfg));
      OutcomeIsForeseen(start, cfg);
      RoomIsMade(start, cfg);
      AllowedMeasures(Room(start, cfg).disk, cfg);
      hide Allowed, MadeRoom, Spaced, Evicted, Emptied, MeetsNull, Within;
      var crashed := LimitDumpEntries();
      if crashed {
        return Crashed;
      }
      r := LimitTotalDumpSize();
    }
  }
}
