/** The rotation loop of the BMC manager: its running total against the free space on the disk. */
module BmcRotation {
  import opened Wrappers
  import opened OrderedIds
  import opened BmcManager

  /** Every entry is live and its file lies in the directory of its id. */
  ghost predicate Placed(entries: map<nat, Option<Entry>>, disk: map<nat, Dir>) {
    forall id :: id in entries ==>
      id in disk && entries[id].Some? && entries[id].value.file.Some? && entries[id].value.file.value.dir == id
  }

  ghost function EvictedEntries(entries: map<nat, Option<Entry>>, n: nat): map<nat, Option<Entry>>
    decreases n
  {
    if n == 0 || entries == map[] then entries else EvictedEntries(entries - {Oldest(entries.Keys)}, n - 1)
  }

  /** The disk without the directories of the n oldest entries. */
  ghost function EvictedDisk(entries: map<nat, Option<Entry>>, disk: map<nat, Dir>, n: nat): map<nat, Dir>
    decreases n
  {
    if n == 0 || entries == map[] then disk
    else
      var id := Oldest(entries.Keys);
      EvictedDisk(entries - {id}, disk - {id}, n - 1)
  }

  /** The loop's running total after n deletions. */
  ghost function Running(entries: map<nat, Option<Entry>>, disk: map<nat, Dir>, free: nat, n: nat): nat
    requires Placed(entries, disk)
    decreases n
  {
    if n == 0 || entries == map[] then free
    else
      var id := Oldest(entries.Keys);
      Running(entries - {id}, disk - {id}, free + DirKb(disk[id]), n - 1)
  }

  /** The rotation that measures the disk again after every deletion. */
  ghost function SimpleRotate(entries: map<nat, Option<Entry>>, disk: map<nat, Dir>, cfg: Config): Rotated
    decreases |entries|
  {
    var free := FreeKb(disk, cfg);
    if free >= cfg.minSpace then Rotated(entries, disk, Allowed(Min(free, cfg.maxSize)))
    else if entries == map[] then Rotated(entries, disk, NullEntry)
    else
      var id := Oldest(entries.Keys);
      if id !in disk then Rotated(entries, disk, NoDirectory)
      else if entries[id].None? then Rotated(entries, disk, NullEntry)
      else SimpleRotate(entries - {id}, Removed(disk, entries[id].value), cfg)
  }

  /** The running total is conserved: what it gains is what the disk loses. */
  lemma {:induction false} RunningTracksDisk(entries: map<nat, Option<Entry>>, disk: map<nat, Dir>, free: nat, n: nat)
    requires Placed(entries, disk)
    ensures Running(entries, disk, free, n) + UsedKb(EvictedDisk(entries, disk, n)) == free + UsedKb(disk)
    decreases n
  {
    if n == 0 || entries == map[] {
    } else {
      var id := Oldest(entries.Keys);
      TotalRemove(disk, DirKb, id);
      RunningTracksDisk(entries - {id}, disk - {id}, free + DirKb(disk[id]), n - 1);
    }
  }

  /** The kilobytes that deleting an entry frees; a dump in progress has no file and frees none. */
  function FreedKb(disk: map<nat, Dir>, entry: Entry): nat {
    if entry.file.Some? && entry.file.value.dir in disk then DirKb(disk[entry.file.value.dir]) else 0
  }

  /**
   One deletion keeps a running total that was exact exact if and only if the directory measured,
   the one named by the id, is as large as the directory the entry's file lies in.
   */
  lemma {:induction false} DeletionTracksDisk(disk: map<nat, Dir>, id: nat, entry: Entry, free: nat, sum: nat)
    requires id in disk && free + UsedKb(disk) == sum
    ensures free + DirKb(disk[id]) + UsedKb(Removed(disk, entry)) == sum <==> DirKb(disk[id]) == FreedKb(disk, entry)
  {
    if entry.file.Some? {
      var dir := entry.file.value.dir;
      if dir in disk {
        TotalRemove(disk, DirKb, dir);
      } else {
        assert disk - {dir} == disk;
      }
    }
  }

  /**
   Started from the measured free space, the running total equals the recomputed free space if and only
   if the directory started within its total size or nothing has been freed; it overstates what is left
   of the total by exactly the initial excess.
   */
  lemma {:induction false} RunningIsRecomputed(entries: map<nat, Option<Entry>>, disk: map<nat, Dir>, cfg: Config, n: nat)
    requires Placed(entries, disk)
    ensures var free := FreeKb(disk, cfg);
            var running, left := Running(entries, disk, free, n), EvictedDisk(entries, disk, n);
            && (running == FreeKb(left, cfg) <==> UsedKb(disk) <= cfg.totalSize || UsedKb(left) == UsedKb(disk))
            && running == cfg.totalSize - UsedKb(left) + Max(UsedKb(disk) - cfg.totalSize, 0)
  {
    RunningTracksDisk(entries, disk, FreeKb(disk, cfg), n);
  }

  lemma {:induction false} RunningGrows(entries: map<nat, Option<Entry>>, disk: map<nat, Dir>, free: nat, n: nat, m: nat)
    requires Placed(entries, disk) && n <= m
    ensures free <= Running(entries, disk, free, n) <= Running(entries, disk, free, m)
    decreases m
  {
    if m == 0 || entries == map[] {
    } else {
      var id := Oldest(entries.Keys);
      RunningGrows(entries - {id}, disk - {id}, free + DirKb(disk[id]), if n == 0 then 0 else n - 1, m - 1);
    }
  }

  /** How many entries the loop deletes: the fewest, oldest first, that bring the total to the minimum. */
  ghost predicate Shortest(entries: map<nat, Option<Entry>>, disk: map<nat, Dir>, free: nat, cfg: Config, n: nat)
    requires Placed(entries, disk)
  {
    && n <= |entries|
    && (forall m :: 0 <= m < n ==> Running(entries, disk, free, m) < cfg.minSpace)
    && (n < |entries| ==> Running(entries, disk, free, n) >= cfg.minSpace)
  }

  /** The number of deletions the loop makes. */
  ghost function Deletions(entries: map<nat, Option<Entry>>, disk: map<nat, Dir>, free: nat, cfg: Config): nat
    requires Placed(entries, disk)
    decreases |entries|
  {
    if free >= cfg.minSpace || entries == map[] then 0
    else
      var id := Oldest(entries.Keys);
      1 + Deletions(entries - {id}, disk - {id}, free + DirKb(disk[id]), cfg)
  }

  /** One deletion more than what is shortest after it. */
  lemma {:induction false} ShorterByOne(entries: map<nat, Option<Entry>>, disk: map<nat, Dir>, free: nat, cfg: Config, n: nat)
    requires Placed(entries, disk) && entries != map[] && free < cfg.minSpace
    requires var id := Oldest(entries.Keys);
             Shortest(entries - {id}, disk - {id}, free + DirKb(disk[id]), cfg, n)
    ensures Shortest(entries, disk, free, cfg, n + 1)
  {
    hide DirKb;
    var id := Oldest(entries.Keys);
    var rest, left, more := entries - {id}, disk - {id}, free + DirKb(disk[id]);
    assert |rest| == |entries| - 1;
    forall m: nat | m <= n
      ensures Running(entries, disk, free, m + 1) == Running(rest, left, more, m)
    {
    }
    forall m | 0 <= m < n + 1
      ensures Running(entries, disk, free, m) < cfg.minSpace
    {
      if m > 0 {
        assert Running(entries, disk, free, (m - 1) + 1) == Running(rest, left, more, m - 1);
      }
    }
  }

  lemma {:induction false} NoneIsShortest(entries: map<nat, Option<Entry>>, disk: map<nat, Dir>, free: nat, cfg: Config)
    requires Placed(entries, disk) && (free >= cfg.minSpace || entries == map[])
    ensures Shortest(entries, disk, free, cfg, 0)
  {
  }

  lemma {:induction false} DeletionsAreShortest(entries: map<nat, Option<Entry>>, disk: map<nat, Dir>, free: nat, cfg: Config)
    requires Placed(entries, disk)
    ensures Shortest(entries, disk, free, cfg, Deletions(entries, disk, free, cfg))
    decreases |entries|
  {
    hide DirKb, Shortest, Running;
    if free >= cfg.minSpace || entries == map[] {
      NoneIsShortest(entries, disk, free, cfg);
    } else {
      var id := Oldest(entries.Keys);
      var rest, left, more := entries - {id}, disk - {id}, free + DirKb(disk[id]);
      DeletionsAreShortest(rest, left, more, cfg);
      ShorterByOne(entries, disk, free, cfg, Deletions(rest, left, more, cfg));
    }
  }

  lemma {:induction false} RotateResult(entries: map<nat, Option<Entry>>, disk: map<nat, Dir>, free: nat, cfg: Config)
    requires Placed(entries, disk)
    ensures var n := Deletions(entries, disk, free, cfg);
            var running := Running(entries, disk, free, n);
            Rotate(entries, disk, free, cfg) ==
            Rotated(EvictedEntries(entries, n), EvictedDisk(entries, disk, n),
                    if running >= cfg.minSpace then Allowed(Min(running, cfg.maxSize)) else NullEntry)
    decreases |entries|
  {
    if free >= cfg.minSpace || entries == map[] {
    } else {
      hide DirKb;
      var id := Oldest(entries.Keys);
      RotateResult(entries - {id}, disk - {id}, free + DirKb(disk[id]), cfg);
    }
  }

  /** Over placed entries the loop succeeds exactly when deleting everything would free enough. */
  lemma {:induction false} PlacedRotateSucceeds(entries: map<nat, Option<Entry>>, disk: map<nat, Dir>, free: nat, cfg: Config)
    requires Placed(entries, disk)
    ensures Rotate(entries, disk, free, cfg).allowance.Allowed? <==>
            Running(entries, disk, free, |entries|) >= cfg.minSpace
  {
    var n := Deletions(entries, disk, free, cfg);
    DeletionsAreShortest(entries, disk, free, cfg);
    RotateResult(entries, disk, free, cfg);
    RunningGrows(entries, disk, free, n, |entries|);
    hide Running, Rotate, Deletions;
  }

  // ----- any entries -------------------------------------------------------------------------

  /** The n oldest entries are live, and each has a directory of its id when the loop reaches it. */
  ghost predicate Passable(entries: map<nat, Option<Entry>>, disk: map<nat, Dir>, n: nat)
    decreases n
  {
    n == 0 ||
    (entries != map[] &&
     var id := Oldest(entries.Keys);
     && id in disk && entries[id].Some?
     && Passable(entries - {id}, Removed(disk, entries[id].value), n - 1))
  }

  /** What the loop measures in the directories of the n oldest entries. */
  ghost function Measured(entries: map<nat, Option<Entry>>, disk: map<nat, Dir>, n: nat): nat
    requires Passable(entries, disk, n)
    decreases n
  {
    if n == 0 then 0
    else
      var id := Oldest(entries.Keys);
      DirKb(disk[id]) + Measured(entries - {id}, Removed(disk, entries[id].value), n - 1)
  }

  /** The disk once the files of the n oldest entries are deleted. */
  ghost function PassedDisk(entries: map<nat, Option<Entry>>, disk: map<nat, Dir>, n: nat): map<nat, Dir>
    requires Passable(entries, disk, n)
    decreases n
  {
    if n == 0 then disk
    else
      var id := Oldest(entries.Keys);
      PassedDisk(entries - {id}, Removed(disk, entries[id].value), n - 1)
  }

  lemma {:induction false} MeasuredGrows(entries: map<nat, Option<Entry>>, disk: map<nat, Dir>, m: nat, n: nat)
    requires m <= n && Passable(entries, disk, n)
    ensures Passable(entries, disk, m) && Measured(entries, disk, m) <= Measured(entries, disk, n)
    decreases n
  {
    if m == 0 {
    } else {
      hide DirKb;
      var id := Oldest(entries.Keys);
      MeasuredGrows(entries - {id}, Removed(disk, entries[id].value), m - 1, n - 1);
    }
  }

  /** The loop has made n deletions and stops there, for the reason given. */
  ghost predicate StopsAfter(entries: map<nat, Option<Entry>>, disk: map<nat, Dir>, free: nat, cfg: Config, n: nat) {
    && Passable(entries, disk, n)
    && (n > 0 ==> Passable(entries, disk, n - 1) && free + Measured(entries, disk, n - 1) < cfg.minSpace)
    && var running, rest, left := free + Measured(entries, disk, n), EvictedEntries(entries, n), PassedDisk(entries, disk, n);
    && var r := Rotate(entries, disk, free, cfg);
    && r.entries == rest && r.disk == left && r.allowance != OutOfSpace
    && (r.allowance.Allowed? <==> running >= cfg.minSpace)
    && (r.allowance.Allowed? ==> r.allowance.size == Min(running, cfg.maxSize))
    && (r.allowance == NoDirectory <==> running < cfg.minSpace && rest != map[] && Oldest(rest.Keys) !in left)
    && (r.allowance == NullEntry <==>
        && running < cfg.minSpace
        && (rest == map[] || (Oldest(rest.Keys) in left && rest[Oldest(rest.Keys)].None?)))
  }

  lemma {:induction false} RotateStops(entries: map<nat, Option<Entry>>, disk: map<nat, Dir>, free: nat, cfg: Config)
    returns (n: nat)
    ensures StopsAfter(entries, disk, free, cfg, n)
    decreases |entries|
  {
    hide DirKb;
    n := 0;
    if free >= cfg.minSpace || entries == map[] {
    } else {
      var id := Oldest(entries.Keys);
      if id in disk && entries[id].Some? {
        var k := RotateStops(entries - {id}, Removed(disk, entries[id].value), free + DirKb(disk[id]), cfg);
        n := k + 1;
        assert k > 0 ==> Passable(entries, disk, k);
      }
    }
  }

  /**
   Over any entries rotation yields an allowance if and only if enough is measured in the directories of
   some number of oldest entries, each of them live and with its directory when it is reached.
   */
  lemma {:induction false} RotateSucceeds(entries: map<nat, Option<Entry>>, disk: map<nat, Dir>, free: nat, cfg: Config)
    ensures Rotate(entries, disk, free, cfg).allowance.Allowed? <==>
            exists n: nat :: Passable(entries, disk, n) && free + Measured(entries, disk, n) >= cfg.minSpace
  {
    var k := RotateStops(entries, disk, free, cfg);
    var running := free + Measured(entries, disk, k);
    hide Rotate, Passable, Measured, PassedDisk, EvictedEntries, DirKb;
    if n: nat :| Passable(entries, disk, n) && free + Measured(entries, disk, n) >= cfg.minSpace {
      if n <= k {
        MeasuredGrows(entries, disk, n, k);
        assert running >= cfg.minSpace;
      } else {
        MeasuredGrows(entries, disk, k + 1, n);
        PassesFurther(entries, disk, k);
      }
    }
  }

  /** An entry that can be passed is there, live, and has its directory. */
  lemma {:induction false} PassesFurther(entries: map<nat, Option<Entry>>, disk: map<nat, Dir>, n: nat)
    requires Passable(entries, disk, n + 1)
    ensures Passable(entries, disk, n)
    ensures var rest := EvictedEntries(entries, n);
            rest != map[] && Oldest(rest.Keys) in PassedDisk(entries, disk, n) && rest[Oldest(rest.Keys)].Some?
    decreases n
  {
    if n == 0 {
    } else {
      var id := Oldest(entries.Keys);
      PassesFurther(entries - {id}, Removed(disk, entries[id].value), n - 1);
    }
  }

  lemma {:induction false} FreedIsFree(disk: map<nat, Dir>, id: nat, cfg: Config)
    requires id in disk && UsedKb(disk) <= cfg.totalSize
    ensures UsedKb(disk - {id}) <= cfg.totalSize
    ensures FreeKb(disk - {id}, cfg) == FreeKb(disk, cfg) + DirKb(disk[id])
  {
    TotalRemove(disk, DirKb, id);
    hide DirKb, Total;
  }

  lemma {:induction false} RotateAgrees(entries: map<nat, Option<Entry>>, disk: map<nat, Dir>, cfg: Config)
    requires Placed(entries, disk) && UsedKb(disk) <= cfg.totalSize
    ensures Rotate(entries, disk, FreeKb(disk, cfg), cfg) == SimpleRotate(entries, disk, cfg)
    decreases |entries|
  {
    hide DirKb, FreeKb, UsedKb;
    if FreeKb(disk, cfg) >= cfg.minSpace || entries == map[] {
    } else {
      var id := Oldest(entries.Keys);
      FreedIsFree(disk, id, cfg);
      RotateAgrees(entries - {id}, disk - {id}, cfg);
    }
  }

  /** Otherwise the overstated total stops the loop no later than measuring would. */
  lemma {:induction false} RotateStopsEarlier(entries: map<nat, Option<Entry>>, disk: map<nat, Dir>, free: nat, cfg: Config)
    requires Placed(entries, disk) && free >= FreeKb(disk, cfg)
    ensures SimpleRotate(entries, disk, cfg).entries.Keys <= Rotate(entries, disk, free, cfg).entries.Keys
    decreases |entries|
  {
    RotatesAreSub(entries, disk, cfg);
    if free >= cfg.minSpace || entries == map[] {
    } else {
      var id := Oldest(entries.Keys);
      TotalRemove(disk, DirKb, id);
      hide DirKb, Total;
      RotateStopsEarlier(entries - {id}, disk - {id}, free + DirKb(disk[id]), cfg);
    }
  }

  lemma {:induction false} RotatesAreSub(entries: map<nat, Option<Entry>>, disk: map<nat, Dir>, cfg: Config)
    requires Placed(entries, disk)
    ensures SimpleRotate(entries, disk, cfg).entries.Keys <= entries.Keys
    decreases |entries|
  {
    if FreeKb(disk, cfg) >= cfg.minSpace || entries == map[] {
    } else {
      var id := Oldest(entries.Keys);
      RotatesAreSub(entries - {id}, disk - {id}, cfg);
    }
  }

  function FileBytes(files: seq<File>): nat {
    if files == [] then 0 else files[0].bytes + FileBytes(files[1..])
  }

  function DirBytes(dir: Dir): nat {
    FileBytes(dir.files) + if dir.preserve.Some? then dir.preserve.value.bytes else 0
  }

  lemma {:induction false} FilesKbRoundsUp(files: seq<File>)
    ensures FileBytes(files) <= 1024 * FilesKb(files) <= FileBytes(files) + 1023 * |files|
  {
    if files == [] {
    } else {
      FilesKbRoundsUp(files[1..]);
    }
  }

  /**
   The allowance of a rotation over live entries. It lies between the minimum and the maximum. The
   space then in use and the allowance together exceed the total size by at most the excess the
   directory started with, and by exactly that unless the maximum caps the allowance. So they fit if
   the directory started within its total size, and in bytes as well because sizes are rounded up.
   */
  lemma {:induction false} AllowanceFits(entries: map<nat, Option<Entry>>, disk: map<nat, Dir>, cfg: Config)
    requires Placed(entries, disk) && cfg.rotation && cfg.minSpace <= cfg.maxSize
    ensures var r := AllowedSize(entries, disk, cfg);
            r.allowance.Allowed? ==>
              var size, excess := r.allowance.size, Max(UsedKb(disk) - cfg.totalSize, 0);
              && cfg.minSpace <= size <= cfg.maxSize
              && UsedKb(r.disk) + size <= cfg.totalSize + excess
              && (size < cfg.maxSize ==> UsedKb(r.disk) + size == cfg.totalSize + excess)
              && (excess == 0 ==> Total(r.disk, DirBytes) + 1024 * size <= 1024 * cfg.totalSize)
  {
    var free := FreeKb(disk, cfg);
    RotateResult(entries, disk, free, cfg);
    RunningIsRecomputed(entries, disk, cfg, Deletions(entries, disk, free, cfg));
    forall d: Dir
      ensures DirBytes(d) <= 1024 * DirKb(d)
    {
      FilesKbRoundsUp(d.files);
    }
    TotalScaled(AllowedSize(entries, disk, cfg).disk, DirBytes, DirKb, 1024);
  }
}
