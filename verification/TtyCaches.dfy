/** The two caches of the tty source: terminals of processes, and their CPU use. */
module TtyCaches {
  import opened Wrappers
  import opened Durations

  const TTY_CACHE_DURATION := 2 * SECOND
  const TTY_CACHE_MAX_SIZE := 1000
  const TTY_CACHE_CLEANUP_AT := 800
  const CPU_CACHE_CLEANUP_AT := 800

  // ----- terminals

  datatype TtyEntry = TtyEntry(path: string, atime: int, cachedAt: int, valid: bool)

  type TtyMap = map<string, TtyEntry>

  predicate IsTtyPath(target: string) {
    "/dev/pts/" <= target || "/dev/tty" <= target
  }

  predicate OlderThan(m: TtyMap, now: int) {
    forall p :: p in m ==> m[p].cachedAt < now
  }

  /** The oldest entries are gone: what is left is part of what was there, and nothing that left is newer than what stayed. */
  ghost predicate EvictedFrom(was: TtyMap, m: TtyMap) {
    && m.Keys <= was.Keys
    && (forall p :: p in m ==> m[p] == was[p])
    && (forall p, q :: p in was && p !in m && q in m ==> was[p].cachedAt <= was[q].cachedAt)
  }

  lemma SizeWithout(m: TtyMap, p: string)
    requires p in m
    ensures |m - {p}| == |m| - 1
  {
    assert (m - {p}).Keys == m.Keys - {p};
    assert |(m - {p}).Keys| == |m.Keys| - 1;
  }

  lemma SizeWith(m: TtyMap, p: string, e: TtyEntry)
    ensures |m[p := e]| == if p in m then |m| else |m| + 1
  {
    assert m[p := e].Keys == m.Keys + {p};
    assert |m[p := e].Keys| == |m.Keys + {p}|;
    if p in m {
      assert m.Keys + {p} == m.Keys;
    }
  }

  // The entries that a cleanup keeps.
  function Cleaned(m: TtyMap, now: int, alive: set<string>): TtyMap {
    map p | p in m && p in alive && now - m[p].cachedAt < TTY_CACHE_DURATION :: m[p]
  }

  // An entry for the process is there and not expired.
  predicate Hit(m: TtyMap, pid: string, now: int) {
    pid in m && now - m[pid].cachedAt < TTY_CACHE_DURATION
  }

  /** An entry made at some time answers for two seconds. */
  lemma HitIff(m: TtyMap, pid: string, e: TtyEntry, now: int)
    ensures Hit(m[pid := e], pid, now) <==> now - e.cachedAt < 2 * SECOND
    ensures Hit(m, pid, now) ==> pid in m
  {
  }

  class TtyPathCache {
    var entries: TtyMap

    constructor ()
      ensures entries == map[]
    {
      entries := map[];
    }

    /** Expired entries and those of dead processes go. */
    method CleanupTTYCache(now: int, alive: set<string>)
      modifies this
      ensures entries == Cleaned(old(entries), now, alive)
      ensures forall p :: p in entries <==> p in old(entries) && p in alive && now - old(entries)[p].cachedAt < 2 * SECOND
      ensures forall p :: p in entries ==> entries[p] == old(entries)[p]
    {
      var todo := entries.Keys;
      while todo != {}
        invariant todo <= old(entries.Keys) && entries.Keys <= old(entries.Keys)
        invariant forall p :: p in entries ==> entries[p] == old(entries)[p]
        invariant forall p :: p in todo ==> p in entries
        invariant forall p :: p in old(entries) && p !in todo ==>
                    (p in entries <==> p in alive && now - old(entries)[p].cachedAt < TTY_CACHE_DURATION)
        decreases |todo|
      {
        var pid :| pid in todo;
        todo := todo - {pid};
        if now - entries[pid].cachedAt >= TTY_CACHE_DURATION {
          entries := entries - {pid};
        } else if pid !in alive {
          entries := entries - {pid};
        }
      }
    }

    // One pass over the entries for the oldest that is older than now.
    method FindOldest(now: int) returns (oldestPID: Option<string>)
      ensures oldestPID.Some? ==> oldestPID.value in entries && entries[oldestPID.value].cachedAt < now
      ensures oldestPID.Some? ==> forall p :: p in entries ==> entries[oldestPID.value].cachedAt <= entries[p].cachedAt
      ensures oldestPID.None? ==> forall p :: p in entries ==> now <= entries[p].cachedAt
    {
      var oldestTime := now;
      oldestPID := None;
      var todo := entries.Keys;
      while todo != {}
        invariant todo <= entries.Keys
        invariant oldestPID.None? ==> oldestTime == now
        invariant oldestPID.Some? ==> oldestPID.value in entries && entries[oldestPID.value].cachedAt == oldestTime < now
        invariant forall p :: p in entries && p !in todo ==> oldestTime <= entries[p].cachedAt
        decreases |todo|
      {
        var cachePID :| cachePID in todo;
        todo := todo - {cachePID};
        if entries[cachePID].cachedAt < oldestTime {
          oldestTime := entries[cachePID].cachedAt;
          oldestPID := Some(cachePID);
        }
      }
    }

    /**
      Removes oldest entries down to 50 below the cleanup size. It falls short
      only if an entry is not older than now, and then nothing older is left.
     */
    method Evict(now: int)
      modifies this
      ensures EvictedFrom(old(entries), entries)
      ensures |entries| <= 750 || (entries != map[] && forall p :: p in entries ==> now <= entries[p].cachedAt)
      ensures OlderThan(old(entries), now) ==> |entries| <= 750
      ensures |old(entries)| > 750 ==> |entries| >= 750
    {
      var targetSize := TTY_CACHE_CLEANUP_AT - 50;
      while |entries| > targetSize
        invariant EvictedFrom(old(entries), entries)
        invariant |old(entries)| > targetSize ==> |entries| >= targetSize
        decreases |entries|
      {
        var oldestPID := FindOldest(now);
        if oldestPID.None? {
          SomeEntry(entries);
          return;
        }
        SizeWithout(entries, oldestPID.value);
        entries := entries - {oldestPID.value};
      }
    }

    lemma SomeEntry(m: TtyMap)
      requires |m| > 0
      ensures exists p :: p in m
    {
      assert m.Keys != {};
      var p :| p in m.Keys;
    }

    /**
      The terminal of a process: `link` is what reading its fd 0 gives, `stat`
      the access time of a terminal, if it can be had.
     */
    method GetCachedTTYInfo(pid: string, now: int, link: Option<string>, stat: Option<int>, alive: set<string>)
      returns (path: string, atime: Option<int>, ok: bool)
      modifies this
      // An entry younger than two seconds answers and stays.
      ensures Hit(old(entries), pid, now) ==>
                entries == old(entries) && (ok <==> old(entries)[pid].valid && stat.Some?)
      ensures Hit(old(entries), pid, now) && ok ==> path == old(entries)[pid].path && atime == stat
      ensures Hit(old(entries), pid, now) && !ok && old(entries)[pid].valid ==>
                path == old(entries)[pid].path && atime == Some(old(entries)[pid].atime)
      ensures Hit(old(entries), pid, now) && !old(entries)[pid].valid ==> path == "" && atime == None
      // Otherwise the terminal is looked up.
      ensures !Hit(old(entries), pid, now) ==> (ok <==> link.Some? && ("/dev/pts/" <= link.value || "/dev/tty" <= link.value) && stat.Some?)
      // A failure is entered without regard to the size.
      ensures !Hit(old(entries), pid, now) && !ok ==>
                && atime == None && entries == old(entries)[pid := TtyEntry(path, 0, now, false)]
                && path == if link.Some? && ("/dev/pts/" <= link.value || "/dev/tty" <= link.value) then link.value else ""
      // A success keeps the cache within its maximum size.
      ensures !Hit(old(entries), pid, now) && ok ==>
                path == link.value && atime == stat && pid in entries && entries[pid] == TtyEntry(path, stat.value, now, true)
      ensures !Hit(old(entries), pid, now) && ok && OlderThan(old(entries), now) ==> |entries| <= 1000
      // It removes nothing from a small cache, and from one that a cleanup makes small enough only what the cleanup removes.
      ensures !Hit(old(entries), pid, now) && ok && |old(entries)| < 800 ==>
                entries == old(entries)[pid := entries[pid]]
      ensures !Hit(old(entries), pid, now) && ok && |old(entries)| >= 800 ==>
                var m := Cleaned(old(entries), now, alive);
                if |m| < 1000 then entries == m[pid := entries[pid]]
                else exists kept :: EvictedFrom(m, kept) && entries == kept[pid := entries[pid]]
    {
      if pid in entries && now - entries[pid].cachedAt < TTY_CACHE_DURATION {
        var cached := entries[pid];
        if !cached.valid {
          return "", None, false;
        }
        if stat.None? {
          return cached.path, Some(cached.atime), false;
        }
        return cached.path, stat, true;
      }
      if link.None? {
        entries := entries[pid := TtyEntry("", 0, now, false)];
        return "", None, false;
      }
      var target := link.value;
      if !IsTtyPath(target) {
        entries := entries[pid := TtyEntry("", 0, now, false)];
        return "", None, false;
      }
      if stat.None? {
        entries := entries[pid := TtyEntry(target, 0, now, false)];
        return target, None, false;
      }
      MakeRoom(now, alive);
      SizeWith(entries, pid, TtyEntry(target, stat.value, now, true));
      entries := entries[pid := TtyEntry(target, stat.value, now, true)];
      return target, stat, true;
    }

    // What a success does before it is entered.
    method MakeRoom(now: int, alive: set<string>)
      modifies this
      ensures |old(entries)| < TTY_CACHE_CLEANUP_AT ==> entries == old(entries)
      ensures |old(entries)| >= TTY_CACHE_CLEANUP_AT ==>
                var m := Cleaned(old(entries), now, alive);
                if |m| < TTY_CACHE_MAX_SIZE then entries == m else EvictedFrom(m, entries)
      ensures OlderThan(old(entries), now) ==> |entries| < TTY_CACHE_MAX_SIZE
    {
      if |entries| >= TTY_CACHE_CLEANUP_AT {
        CleanupTTYCache(now, alive);
      }
      if |entries| >= TTY_CACHE_MAX_SIZE {
        Evict(now);
      }
    }
  }

  // ----- CPU use

  datatype Sample = Sample(lastTicks: int, lastActiveAt: int)

  /** One measurement of a process. */
  datatype Measured = Measured(at: int, ticks: int)

  // What a sample becomes with another measurement.
  function Updated(s: Sample, m: Measured): Sample {
    if m.ticks > s.lastTicks then Sample(m.ticks, m.at) else s
  }

  class CpuActivityCache {
    var samples: map<string, Sample>

    constructor ()
      ensures samples == map[]
    {
      samples := map[];
    }

    /** `ticks` is absent if the process cannot be read. */
    method HasRecentCPUActivity(pid: string, window: int, now: int, ticks: Option<int>, alive: set<string>) returns (recent: bool)
      modifies this
      ensures ticks.None? ==> !recent && samples == old(samples)
      ensures ticks.Some? && pid !in old(samples) ==>
                recent && pid in samples && samples[pid] == Sample(ticks.value, now) &&
                forall p :: p in old(samples) && (p in alive || |old(samples)| < 800) ==>
                  p in samples && samples[p] == old(samples)[p]
      ensures ticks.Some? && pid in old(samples) ==>
                samples == old(samples)[pid := Updated(old(samples)[pid], Measured(now, ticks.value))] &&
                (recent <==> now - samples[pid].lastActiveAt < window)
    {
      if ticks.None? {
        return false;
      }
      if pid !in samples {
        if |samples| >= CPU_CACHE_CLEANUP_AT {
          samples := map p | p in samples && p in alive :: samples[p];
        }
        samples := samples[pid := Sample(ticks.value, now)];
        return true;
      }
      var sample := samples[pid];
      if ticks.value > sample.lastTicks {
        sample := Sample(ticks.value, now);
        samples := samples[pid := sample];
      }
      return now - sample.lastActiveAt < window;
    }
  }

  /** The sample of a process that stays in the cache, after its measurements. */
  function After(ms: seq<Measured>): Sample
    requires ms != []
  {
    if |ms| == 1 then Sample(ms[0].ticks, ms[0].at)
    else Updated(After(ms[..|ms| - 1]), ms[|ms| - 1])
  }

  /** What the last of these measurements is answered. */
  predicate Answer(ms: seq<Measured>, window: int)
    requires ms != []
  {
    |ms| == 1 || ms[|ms| - 1].at - After(ms).lastActiveAt < window
  }

  /** The measurement exceeds all before it; the first one does. */
  predicate IsRecord(ms: seq<Measured>, i: nat) {
    i < |ms| && forall j :: 0 <= j < i ==> ms[j].ticks < ms[i].ticks
  }

  predicate IsLatestRecord(ms: seq<Measured>, i: nat) {
    IsRecord(ms, i) && forall k: nat :: i < k < |ms| ==> !IsRecord(ms, k)
  }

  lemma {:induction false} SampleIsLatestRecord(ms: seq<Measured>) returns (i: nat)
    requires ms != []
    ensures IsLatestRecord(ms, i) && After(ms) == Sample(ms[i].ticks, ms[i].at)
    ensures forall j :: 0 <= j < |ms| ==> ms[j].ticks <= ms[i].ticks
  {
    if |ms| == 1 {
      i := 0;
    } else {
      var init, last := ms[..|ms| - 1], |ms| - 1;
      i := SampleIsLatestRecord(init);
      if ms[last].ticks > ms[i].ticks {
        i := last;
      } else {
        assert !IsRecord(ms, last);
        forall k: nat | i < k < |ms| ensures !IsRecord(ms, k) {
          if k < last {
            assert !IsRecord(init, k);
          }
        }
      }
    }
  }

  /**
    However the ticks go up and down, the answer is yes exactly at the first
    measurement, or when the latest one that exceeded all before it is less
    than `window` ago.
   */
  lemma RecentIffLatestRecord(ms: seq<Measured>, window: int)
    requires ms != []
    ensures Answer(ms, window) <==>
            |ms| == 1 || exists i: nat :: IsLatestRecord(ms, i) && ms[|ms| - 1].at - ms[i].at < window
  {
    var i := SampleIsLatestRecord(ms);
    assert IsRecord(ms, i);
    assert forall k: nat :: IsLatestRecord(ms, k) ==> IsRecord(ms, k) && k == i;
  }
}
