/** DiskCache and CacheLock of src/talk/base/diskcache.cc and diskcache.h: entries that are
    locked for writing or open for reading, and the account of their sizes. What the file
    system answers is left open. */
module DiskCaches {

  import opened CacheEviction

  /** The streams handed out, by what they were usable for. */
  datatype Use = Reading | Writing

  datatype Adapter = Adapter(id: string, use: Use)

  // ----- Sums over all entries -----

  ghost function Sum(m: Entries, f: Entry -> nat): nat {
    if m == map[] then 0 else
      var k :| k in m;
      f(m[k]) + Sum(m - {k}, f)
  }

  lemma {:induction false} SumWithout(m: Entries, f: Entry -> nat, k: string)
    requires k in m
    ensures Sum(m, f) == f(m[k]) + Sum(m - {k}, f)
    decreases m
  {
    var j :| j in m && Sum(m, f) == f(m[j]) + Sum(m - {j}, f);
    if j != k {
      SumWithout(m - {j}, f, k);
      SumWithout(m - {k}, f, j);
      assert m - {j} - {k} == m - {k} - {j};
    }
  }

  lemma SumChanged(m: Entries, f: Entry -> nat, k: string, e: Entry)
    ensures Sum(m[k := e], f) == Sum(m - {k}, f) + f(e)
  {
    SumWithout(m[k := e], f, k);
    assert m[k := e] - {k} == m - {k};
  }

  /** Replacing an entry moves a sum by the difference of the two. */
  lemma SumMoved(m: Entries, f: Entry -> nat, k: string, e: Entry)
    requires k in m
    ensures f(m[k]) <= Sum(m, f) && Sum(m[k := e], f) == Sum(m, f) - f(m[k]) + f(e)
  {
    SumWithout(m, f, k);
    SumChanged(m, f, k, e);
  }

  const SIZE_OF: Entry -> nat := (e: Entry) => e.size
  const ACCESSORS_OF: Entry -> nat := (e: Entry) => e.accessors

  // ----- What every operation keeps -----

  /** Locked entries are only written, unlocked ones only read, and the counts agree. */
  ghost predicate Disciplined(e: Entry, readers: nat, writers: nat) {
    && e.accessors == readers + writers
    && (e.lock == Unlocked ==> writers == 0)
    && (e.lock != Unlocked ==> readers == 0)
    && (e.lock == Unlocking ==> writers > 0)
  }

  ghost predicate Discipline(m: Entries, open: multiset<Adapter>) {
    && (forall a :: a in open ==> a.id in m)
    && (forall id :: id in m ==> Disciplined(m[id], open[Adapter(id, Reading)], open[Adapter(id, Writing)]))
  }

  /** Locked already, or open for reading. */
  predicate Busy(e: Entry) {
    e.lock == Locked || (e.lock == Unlocked && e.accessors > 0)
  }

  lemma EitherUse(a: Adapter)
    ensures a == Adapter(a.id, Reading) || a == Adapter(a.id, Writing)
  {
    match a.use {
      case Reading =>
      case Writing =>
    }
  }

  /** An idle entry has no open stream, so it may go. */
  lemma IdleMayGo(m: Entries, open: multiset<Adapter>, id: string)
    requires Discipline(m, open) && id in m && Idle(m[id])
    ensures Discipline(m - {id}, open)
  {
    forall a | a in open ensures a.id in m - {id} {
      EitherUse(a);
      assert Disciplined(m[id], open[Adapter(id, Reading)], open[Adapter(id, Writing)]);
    }
  }

  /** An entry, its readers and its writers change; the others do not. */
  lemma EntryChanged(m: Entries, open: multiset<Adapter>, id: string, e: Entry, open': multiset<Adapter>)
    requires Discipline(m, open)
    requires forall a: Adapter :: a.id != id ==> open'[a] == open[a]
    requires Disciplined(e, open'[Adapter(id, Reading)], open'[Adapter(id, Writing)])
    ensures Discipline(m[id := e], open')
  {
    forall a | a in open' ensures a.id in m[id := e] {
      if a.id != id { assert a in open; }
    }
    forall j | j in m && j != id
      ensures Disciplined(m[j], open'[Adapter(j, Reading)], open'[Adapter(j, Writing)])
    {
      assert Adapter(j, Reading).id == j && Adapter(j, Writing).id == j;
    }
  }

  /** A new entry. */
  function Fresh(now: int): (e: Entry)
    ensures e.lock == Unlocked && e.accessors == e.size == e.streams == 0 && e.modified == now
  {
    Entry(Unlocked, 0, 0, 0, now)
  }

  /** The answer of LockResource; `Erased` if it goes on with an entry that it has itself evicted. */
  datatype Grant = Granted | Refused | Erased

  /** The map with an entry for the id, new or not. */
  ghost function WithEntry(m: Entries, o: seq<string>, id: string, now: int, at: nat): (r: (Entries, seq<string>))
    requires Lists(o, m)
    ensures Lists(r.1, r.0) && id in r.0 && r.0 - {id} == m - {id}
  {
    if id in m then (m, o)
    else
      InsertedLists(o, m, id, at, Fresh(now));
      (m[id := Fresh(now)], Inserted(o, id, at))
  }

  function GrantOf(r: Outcome, id: string): Grant {
    if r.verdict == GaveUp then Refused else if id in r.entries then Granted else Erased
  }

  function Locking(m: Entries, id: string, grant: Grant): Entries {
    if grant == Granted && id in m then m[id := m[id].(lock := Locked)] else m
  }

  lemma GoneElsewhere(m: Entries, after: Entries, id: string)
    requires OnlyIdleGone(m, after)
    ensures OnlyIdleGone(m - {id}, after - {id})
    ensures id in after ==> id in m && after[id] == m[id]
  {
  }

  class DiskCache {
    const maxCache: nat
    const removes: nat -> bool   // whether the files of the n-th resource deleted can be removed
    var deletions: nat
    var entries: Entries
    var order: seq<string>       // the order in which the map is run through
    var totalSize: nat
    var totalAccessors: nat
    ghost var open: multiset<Adapter>
    ghost var failures: nat   // times that they could not

    ghost predicate Valid()
      reads this
    {
      && Discipline(entries, open) && Lists(order, entries)
      && totalSize == Sum(entries, SIZE_OF)
      && totalAccessors == Sum(entries, ACCESSORS_OF)
    }

    constructor (maxCache: nat, removes: nat -> bool)
      ensures Valid() && entries == map[] && order == [] && open == multiset{}
      ensures this.maxCache == maxCache && this.removes == removes
    {
      this.maxCache, this.removes := maxCache, removes;
      entries, order, totalSize, totalAccessors, open := map[], [], 0, 0, multiset{};
      deletions, failures := 0, 0;
    }

    /** What a changed entry must have done to the totals. */
    lemma TotalsAfter(id: string, e: Entry)
      requires Valid() && id in entries
      ensures entries[id].size <= totalSize && entries[id].accessors <= totalAccessors
      ensures Sum(entries[id := e], SIZE_OF) == totalSize - entries[id].size + e.size
      ensures Sum(entries[id := e], ACCESSORS_OF) == totalAccessors - entries[id].accessors + e.accessors
    {
      SumMoved(entries, SIZE_OF, id, e);
      SumMoved(entries, ACCESSORS_OF, id, e);
    }

    /** The entry is erased even if one of its files could not be. */
    method DeleteResource(id: string) returns (success: bool)
      requires Valid()
      modifies this`entries, this`order, this`totalSize, this`deletions, this`failures
      ensures Valid() && OnlyIdleGone(old(entries), entries)
      ensures id in old(entries) && Idle(old(entries)[id]) ==>
                && entries == old(entries) - {id} && order == Removed(old(order), id)
                && totalSize == old(totalSize) - old(entries)[id].size
                && success == removes(old(deletions)) && failures == old(failures) + (if success then 0 else 1)
      ensures id in old(entries) && !Idle(old(entries)[id]) ==> !success
      ensures id !in old(entries) ==> success
      ensures id in old(entries) ==> Idle(old(entries)[id]) || Same(old(entries), old(order), old(failures))
      ensures id !in old(entries) ==> Same(old(entries), old(order), old(failures))
    {
      NothingGone(entries);
      hide Discipline, Sum, OnlyIdleGone, Lists;
      if id !in entries { return true; }
      if entries[id].lock != Unlocked || entries[id].accessors > 0 { return false; }
      success := removes(deletions);
      deletions := deletions + 1;
      if !success { failures := failures + 1; }
      SmallerWithout(entries, id);
      Erase(id);
    }

    /** Nothing has changed in the map. */
    ghost predicate Same(m: Entries, o: seq<string>, f: nat)
      reads this
    {
      entries == m && order == o && failures == f
    }

    method Erase(id: string)
      requires Valid() && id in entries && Idle(entries[id])
      modifies this`entries, this`order, this`totalSize
      ensures Valid() && entries == old(entries) - {id} && order == Removed(old(order), id)
      ensures totalSize == old(totalSize) - old(entries)[id].size
    {
      hide Discipline, Sum, Lists;
      IdleMayGo(entries, open, id);
      SumWithout(entries, SIZE_OF, id);
      SumWithout(entries, ACCESSORS_OF, id);
      RemovedLists(order, entries, id);
      totalSize := totalSize - entries[id].size;
      entries, order := entries - {id}, Removed(order, id);
    }

    /** This is what CheckLimit leaves of the given entries: if every file could be removed and the
        scan stayed within the map, exactly what round after round of eviction leaves. */
    ghost predicate Checked(m: Entries, o: seq<string>, total: nat, f: nat)
      reads this
      requires Lists(o, m)
    {
      var r := Evicted(m, o, total, maxCache);
      && OnlyIdleGone(m, entries) && OldestGone(m, entries) && failures >= f
      && (r.verdict != OffTheEnd && failures == f ==> entries == r.entries && order == r.order)
      && (total <= maxCache || GivesUp(m, o) || (forall n :: removes(n)) ==> failures == f)
    }

    /** Evicts until the cache fits. */
    method CheckLimit() returns (fits: bool)
      requires Valid()
      modifies this`entries, this`order, this`totalSize, this`deletions, this`failures
      ensures Valid() && Checked(old(entries), old(order), old(totalSize), old(failures))
      ensures fits ==> totalSize <= maxCache
      ensures var r := Evicted(old(entries), old(order), old(totalSize), maxCache);
              r.verdict != OffTheEnd && failures == old(failures) ==> fits == r.verdict.Fits?
      // Unless the scan steps past the end, something goes exactly if there is too much and the entry
      // that the scan finds is idle.
      ensures !ScanOf(old(entries), old(order)).PastTheEnd? ==>
                (entries != old(entries) <==>
                 old(totalSize) > maxCache && !GivesUp(old(entries), old(order)))
    {
      hide Discipline, Sum, OnlyIdleGone, OldestGone, ScanOf, Lists, GivesUp, Victim, Idle, Removed, Evicted;
      ghost var (m, o, total, f) := (entries, order, totalSize, failures);
      ghost var spec := Evicted(m, o, total, maxCache);
      NothingGone(m);
      RoundMeans(m, o);
      while totalSize > maxCache
        invariant Valid() && OnlyIdleGone(m, entries) && OldestGone(m, entries) && failures == f
        invariant spec.verdict != OffTheEnd ==> Evicted(entries, order, totalSize, maxCache) == spec
        invariant entries == m ==> order == o && totalSize == total
        invariant entries != m ==> total > maxCache && !GivesUp(m, o)
        decreases |entries|
      {
        ghost var before := entries;
        EvictedStep(entries, order, totalSize, maxCache);
        var success := Evict();
        GoneInTwoSteps(m, before, entries);
        MoreGone(m, before, entries);
        if !success { return false; }
      }
      EvictedStep(entries, order, totalSize, maxCache);
      return true;
    }

    /** One round: what the scan finds is deleted exactly if it is idle. */
    method Evict() returns (success: bool)
      requires Valid()
      modifies this`entries, this`order, this`totalSize, this`deletions, this`failures
      ensures Valid() && OnlyIdleGone(old(entries), entries) && OldestGone(old(entries), entries)
      ensures failures == old(failures) + 1 || failures == old(failures)
      ensures success ==> |entries| < |old(entries)| && failures == old(failures)
      ensures (forall n :: removes(n)) ==> failures == old(failures)
      ensures GivesUp(old(entries), old(order)) ==> !success && Same(old(entries), old(order), old(failures))
      ensures ScanOf(old(entries), old(order)).Oldest? && !GivesUp(old(entries), old(order)) ==>
                var v := Victim(old(entries), old(order));
                && entries == old(entries) - {v} && order == Removed(old(order), v)
                && totalSize == old(totalSize) - old(entries)[v].size
                && success == (failures == old(failures))
    {
      hide Discipline, Sum, OnlyIdleGone, OldestGone, Lists, ScanOf, Idle, Removed;
      NothingGone(entries);
      RoundMeans(entries, order);
      var scan := ScanForOldest(entries, order);
      var victim;
      match scan {
        case AllInUse =>
          return false;
        case PastTheEnd =>
          // The source reads what is not in the map; any entry may come of it.
          OneIsIdle(entries, order);
          victim :| victim in entries;
          SingleMayGo(entries, order, victim);
        case Oldest(_, i) =>
          victim := order[i];
          VictimIsOldest(entries, order);
      }
      SmallerWithout(entries, victim);
      success := DeleteResource(victim);
    }

    /** `at` is the place that the key has in the order of the map, should it be new. */
    method LockResource(id: string, now: int, at: nat) returns (grant: Grant)
      requires Valid()
      modifies this`entries, this`order, this`totalSize, this`deletions, this`failures
      ensures Valid() && OnlyIdleGone(old(entries) - {id}, entries - {id}) && failures >= old(failures)
      // A resource that is locked, or open for reading, is not granted.
      ensures id in old(entries) && Busy(old(entries)[id]) ==>
                grant == Refused && Same(old(entries), old(order), old(failures))
      // What is granted is locked and otherwise as it was, or new.
      ensures grant == Granted ==> id in entries && totalSize <= maxCache
      ensures grant == Granted ==>
                entries[id] == WithEntry(old(entries), old(order), id, now, at).0[id].(lock := Locked)
      ensures grant == Erased ==> id !in entries
      // If every file can be removed and the scan stays within the map, eviction decides: it is
      // refused if eviction gives up, and has been erased if eviction took it.
      ensures (id in old(entries) ==> !Busy(old(entries)[id])) ==>
                var (m, o) := WithEntry(old(entries), old(order), id, now, at);
                var r := Evicted(m, o, old(totalSize), maxCache);
                && (old(totalSize) <= maxCache || GivesUp(m, o) || (forall n :: removes(n)) ==>
                      failures == old(failures))
                && (r.verdict != OffTheEnd && failures == old(failures) ==>
                      && grant == GrantOf(r, id) && order == r.order
                      && entries == Locking(r.entries, id, grant))
    {
      hide Discipline, Sum, Lists, Evicted, GivesUp, OnlyIdleGone, OldestGone;
      ghost var (m, o) := WithEntry(entries, order, id, now, at);
      NothingGone(entries - {id});
      if id !in entries { CreateEntry(id, now, at); }
      assert entries == m && order == o;
      if entries[id].lock == Locked { return Refused; }
      if entries[id].lock == Unlocked && entries[id].accessors > 0 { return Refused; }
      hide WithEntry;
      grant := Claim(id);
    }

    /** The second half of LockResource: makes room and locks. */
    method Claim(id: string) returns (grant: Grant)
      requires Valid() && id in entries && !Busy(entries[id])
      modifies this`entries, this`order, this`totalSize, this`deletions, this`failures
      ensures Valid() && OnlyIdleGone(old(entries) - {id}, entries - {id}) && failures >= old(failures)
      ensures grant == Granted ==>
                id in entries && totalSize <= maxCache && entries[id] == old(entries)[id].(lock := Locked)
      ensures grant == Erased ==> id !in entries
      ensures old(totalSize) <= maxCache || GivesUp(old(entries), old(order)) || (forall n :: removes(n)) ==>
                failures == old(failures)
      ensures var r := Evicted(old(entries), old(order), old(totalSize), maxCache);
              r.verdict != OffTheEnd && failures == old(failures) ==>
                grant == GrantOf(r, id) && order == r.order && entries == Locking(r.entries, id, grant)
    {
      hide Discipline, Sum, Lists, Evicted, GivesUp, OnlyIdleGone, OldestGone;
      ghost var m := entries;
      NothingGone(m);
      EvictedStep(entries, order, totalSize, maxCache);
      if totalSize > maxCache {
        var fits := CheckLimit();
        GoneElsewhere(m, entries, id);
        if !fits { return Refused; }
        if id !in entries { return Erased; }
      }
      GoneElsewhere(m, entries, id);
      ghost var unlocked := entries;
      SetLock(id, Locked, entries[id].modified);
      assert entries - {id} == unlocked - {id};
      return Granted;
    }

    method CreateEntry(id: string, now: int, at: nat)
      requires Valid() && id !in entries
      modifies this`entries, this`order
      ensures Valid() && (entries, order) == WithEntry(old(entries), old(order), id, now, at)
    {
      hide Sum, Lists;
      NoStreams(id);
      EntryChanged(entries, open, id, Fresh(now), open);
      SumChanged(entries, SIZE_OF, id, Fresh(now));
      SumChanged(entries, ACCESSORS_OF, id, Fresh(now));
      InsertedLists(order, entries, id, at, Fresh(now));
      assert entries - {id} == entries;
      entries, order := entries[id := Fresh(now)], Inserted(order, id, at);
    }

    lemma NoStreams(id: string)
      requires Valid() && id !in entries
      ensures open[Adapter(id, Reading)] == 0 && open[Adapter(id, Writing)] == 0
    {
      assert Adapter(id, Reading).id == id && Adapter(id, Writing).id == id;
    }

    /** A change of lock that the open streams of the entry allow. */
    method SetLock(id: string, lock: LockState, modified: int)
      requires Valid() && id in entries
      requires entries[id].lock == Unlocked && lock != Unlocked ==> entries[id].accessors == 0
      requires entries[id].lock != Unlocked && lock == Unlocked ==> entries[id].accessors == 0
      requires lock == Unlocking ==> entries[id].accessors > 0
      modifies this`entries
      ensures Valid() && entries == old(entries)[id := old(entries)[id].(lock := lock, modified := modified)]
    {
      hide Sum, Lists;
      var e := entries[id].(lock := lock, modified := modified);
      EntryChanged(entries, open, id, e, open);
      ListsStays(order, entries, id, e);
      TotalsAfter(id, e);
      entries := entries[id := e];
    }

    /** Opens a stream of a locked resource for writing. `fileSize` is the size of the file as it
        is found, and `canOpen` whether it opens. */
    method WriteResource(id: string, index: nat, fileSize: nat, canOpen: bool) returns (ok: bool)
      requires Valid() && id in entries
      modifies this`entries, this`totalSize, this`totalAccessors, this`open
      ensures Valid() && ok == (old(entries)[id].lock == Locked && canOpen)
      ensures ok ==> open == old(open) + multiset{Adapter(id, Writing)}
      ensures ok ==> var e := old(entries)[id];
                     entries == old(entries)[id := e.(accessors := e.accessors + 1,
                                                      size := if fileSize < e.size then e.size - fileSize else 0,
                                                      streams := if e.streams > index then e.streams else index + 1)]
      ensures !ok ==> entries == old(entries) && open == old(open)
    {
      hide Sum, Discipline, Lists;
      var e := entries[id];
      if e.lock != Locked { return false; }
      var previous := if fileSize > e.size then e.size else fileSize;
      if !canOpen { return false; }
      ghost var e' := e.(streams := if e.streams > index then e.streams else index + 1,
                         size := e.size - previous, accessors := e.accessors + 1);
      ghost var open' := open + multiset{Adapter(id, Writing)};
      EntryHere(id);
      TotalsAfter(id, e');
      EntryChanged(entries, open, id, e', open');
      ListsStays(order, entries, id, e');
      e := e.(streams := if e.streams > index + 1 then e.streams else index + 1);
      e := e.(size := e.size - previous);
      totalSize := totalSize - previous;
      e := e.(accessors := e.accessors + 1);
      totalAccessors := totalAccessors + 1;
      assert e == e';
      entries, open := entries[id := e], open';
      return true;
    }

    lemma OpenHere(id: string, use: Use)
      requires Valid() && Adapter(id, use) in open
      ensures id in entries && entries[id].accessors > 0
      ensures Disciplined(entries[id], open[Adapter(id, Reading)], open[Adapter(id, Writing)])
    {
      assert Adapter(id, use).id == id;
      EitherUse(Adapter(id, use));
    }

    lemma EntryHere(id: string)
      requires Valid() && id in entries
      ensures Disciplined(entries[id], open[Adapter(id, Reading)], open[Adapter(id, Writing)])
    {
    }

    /** Opens a stream of an unlocked resource for reading. */
    method ReadResource(id: string, index: nat, canOpen: bool) returns (ok: bool)
      requires Valid() && id in entries
      modifies this`entries, this`totalAccessors, this`open
      ensures Valid()
      ensures ok == (old(entries)[id].lock == Unlocked && index < old(entries)[id].streams && canOpen)
      ensures ok ==> open == old(open) + multiset{Adapter(id, Reading)}
      ensures ok ==> var e := old(entries)[id];
                     entries == old(entries)[id := e.(accessors := e.accessors + 1)]
      ensures !ok ==> entries == old(entries) && open == old(open)
    {
      hide Sum, Discipline, Lists;
      var e := entries[id];
      if e.lock != Unlocked { return false; }
      if index >= e.streams { return false; }
      if !canOpen { return false; }
      ghost var open' := open + multiset{Adapter(id, Reading)};
      EntryHere(id);
      TotalsAfter(id, e.(accessors := e.accessors + 1));
      EntryChanged(entries, open, id, e.(accessors := e.accessors + 1), open');
      ListsStays(order, entries, id, e.(accessors := e.accessors + 1));
      e := e.(accessors := e.accessors + 1);
      totalAccessors := totalAccessors + 1;
      entries, open := entries[id := e], open';
      return true;
    }

    method UnlockResource(id: string, now: int) returns (ok: bool)
      requires Valid() && id in entries
      modifies this`entries, this`order, this`totalSize, this`deletions, this`failures
      ensures Valid() && ok == (old(entries)[id].lock == Locked)
      ensures !ok ==> Same(old(entries), old(order), old(failures))
      ensures ok && old(entries)[id].accessors > 0 ==>
                Same(old(entries)[id := old(entries)[id].(lock := Unlocking)], old(order), old(failures))
      // Without open streams it is unlocked and the limit checked.
      ensures ok && old(entries)[id].accessors == 0 ==>
                Rechecked(old(entries), old(order), id, old(entries)[id].(lock := Unlocked, modified := now),
                          old(totalSize), old(failures))
    {
      hide Sum, Discipline, Lists, Checked;
      ListsStays(order, entries, id, entries[id].(lock := Unlocked, modified := now));
      if entries[id].lock != Locked { return false; }
      if entries[id].accessors > 0 {
        SetLock(id, Unlocking, entries[id].modified);
      } else {
        SetLock(id, Unlocked, now);
        var _ := CheckLimit();
      }
      return true;
    }

    /** An entry has been changed and the limit checked. */
    ghost predicate Rechecked(m: Entries, o: seq<string>, id: string, e: Entry, total: nat, f: nat)
      reads this
      requires Lists(o, m) && id in m
    {
      ListsStays(o, m, id, e);
      Checked(m[id := e], o, total, f)
    }

    /** A stream is closed, its file having the given size. The "missing cache entry" branch of
        the source is never taken. */
    method ReleaseResource(id: string, use: Use, fileSize: nat, now: int)
      requires Valid() && Adapter(id, use) in open
      modifies this
      ensures Valid() && open == old(open) - multiset{Adapter(id, use)} && id in old(entries)
      ensures var (e, left) := (old(entries)[id], old(entries)[id].accessors - 1);
              if use == Reading then
                Same(old(entries)[id := e.(accessors := left)], old(order), old(failures))
              else if e.lock == Locked || left > 0 then
                Same(old(entries)[id := e.(accessors := left, size := e.size + fileSize)], old(order), old(failures))
              else
                // The last writer unlocks, and the limit is checked.
                Rechecked(old(entries), old(order), id,
                          e.(accessors := 0, size := e.size + fileSize, lock := Unlocked, modified := now),
                          old(totalSize) + fileSize, old(failures))
    {
      hide Sum, Discipline, Lists, Checked;
      OpenHere(id, use);
      var e := entries[id];
      ghost var last := e.lock == Unlocking && e.accessors == 1;
      ghost var e' := e.(accessors := e.accessors - 1,
                         size := if e.lock == Unlocked then e.size else e.size + fileSize,
                         lock := if last then Unlocked else e.lock, modified := if last then now else e.modified);
      ghost var open' := open - multiset{Adapter(id, use)};
      TotalsAfter(id, e');
      EntryChanged(entries, open, id, e', open');
      ListsStays(order, entries, id, e');
      e := e.(accessors := e.accessors - 1);
      totalAccessors := totalAccessors - 1;
      var unlocks := false;
      if e.lock != Unlocked {
        e := e.(size := e.size + fileSize);
        totalSize := totalSize + fileSize;
        if e.lock == Unlocking && e.accessors == 0 {
          e := e.(modified := now, lock := Unlocked);
          unlocks := true;
        }
      }
      assert e == e';
      entries, open := entries[id := e], open';
      if unlocks {
        var _ := CheckLimit();
      }
    }

    /** Reading and writing exclude each other, and only a locked resource is written. */
    lemma NeverBoth(id: string)
      requires Valid()
      ensures !(Adapter(id, Reading) in open && Adapter(id, Writing) in open)
      ensures Adapter(id, Writing) in open ==> id in entries && entries[id].lock != Unlocked
      ensures Adapter(id, Reading) in open ==> id in entries && entries[id].lock == Unlocked
    {
      if Adapter(id, Writing) in open { assert Adapter(id, Writing).id in entries; }
      if Adapter(id, Reading) in open { assert Adapter(id, Reading).id in entries; }
    }

    /** Purge forgets the entries but not their size: the account stays right exactly when it
        was zero. `purged` says whether the files could be removed. */
    method Purge(purged: bool) returns (ok: bool)
      requires Valid()
      modifies this`entries, this`order
      ensures ok == (totalAccessors == 0 && purged)
      ensures !ok ==> entries == old(entries)
      ensures ok ==> entries == map[] && (Valid() <==> totalSize == 0)
    {
      if totalAccessors > 0 { return false; }
      if !purged { return false; }
      forall a | a in open ensures false {
        EitherUse(a);
        SumWithout(entries, ACCESSORS_OF, a.id);
      }
      entries, order := map[], [];
      return true;
    }
  }

  lemma SumOfOne(id: string, e: Entry, f: Entry -> nat)
    ensures Sum(map[id := e], f) == f(e)
  {
    SumWithout(map[id := e], f, id);
    assert map[id := e] - {id} == map[];
  }

  lemma SumWithNew(m: Entries, id: string, e: Entry)
    requires id !in m
    ensures Sum(m[id := e], SIZE_OF) == Sum(m, SIZE_OF) + e.size
  {
    SumChanged(m, SIZE_OF, id, e);
    assert m - {id} == m;
  }

  /** An entry of the given size that has been written at the given time. */
  function Stored(size: nat, now: int): Entry {
    Entry(Unlocked, 0, size, 1, now)
  }

  /** Locks and writes a new resource, while the cache is not overfull. */
  method Write(cache: DiskCache, id: string, size: nat, now: int, at: nat)
    requires cache.Valid() && id !in cache.entries && cache.totalSize <= cache.maxCache
    modifies cache
    ensures cache.Valid() && cache.totalSize == old(cache.totalSize) + size
    ensures cache.entries == old(cache.entries)[id := Stored(size, now).(lock := Locked)]
    ensures cache.order == Inserted(old(cache.order), id, at)
    ensures cache.open == old(cache.open)
  {
    hide Discipline, Sum, Lists, GivesUp, OnlyIdleGone;
    ghost var m := cache.entries;
    EvictedAtOnce(cache, id, now, at);
    var grant := cache.LockResource(id, now, at);
    var ok := cache.WriteResource(id, 0, 0, true);
    cache.ReleaseResource(id, Writing, size, now);
    assert cache.entries == m[id := Stored(size, now).(lock := Locked)];
    SumWithNew(m, id, Stored(size, now).(lock := Locked));
  }

  lemma EvictedAtOnce(cache: DiskCache, id: string, now: int, at: nat)
    requires cache.Valid() && id !in cache.entries && cache.totalSize <= cache.maxCache
    ensures var (m, o) := WithEntry(cache.entries, cache.order, id, now, at);
            Evicted(m, o, cache.totalSize, cache.maxCache) == Outcome(m, o, Fits)
  {
  }

  /** Unlocks it, while the cache is not overfull. */
  method Finish(cache: DiskCache, id: string, now: int)
    requires cache.Valid() && id in cache.entries && cache.totalSize <= cache.maxCache
    requires cache.entries[id].lock == Locked && cache.entries[id].accessors == 0
    modifies cache
    ensures cache.Valid() && cache.order == old(cache.order) && cache.open == old(cache.open)
    ensures cache.entries == old(cache.entries)[id := old(cache.entries)[id].(lock := Unlocked, modified := now)]
    ensures cache.totalSize == old(cache.totalSize)
  {
    hide Discipline, Sum, Lists, GivesUp, OnlyIdleGone, OldestGone;
    ghost var (m, e) := (cache.entries, cache.entries[id].(lock := Unlocked, modified := now));
    ListsStays(cache.order, m, id, e);
    EvictedStep(m[id := e], cache.order, cache.totalSize, cache.maxCache);
    SumMoved(m, SIZE_OF, id, e);
    var ok := cache.UnlockResource(id, now);
  }

  /** A cache with one resource, written and unlocked. */
  method OneStored(id: string, size: nat, now: int, maxCache: nat) returns (cache: DiskCache)
    requires size <= maxCache
    ensures fresh(cache) && cache.Valid() && cache.maxCache == maxCache && cache.totalSize == size
    ensures cache.entries == map[id := Stored(size, now)] && cache.order == [id]
    ensures cache.open == multiset{} && forall n :: cache.removes(n)
  {
    cache := new DiskCache(maxCache, n => true);
    NothingToSum();
    hide Discipline, Sum, Lists;
    Write(cache, id, size, now, 0);
    assert cache.entries == map[id := Stored(size, now).(lock := Locked)] && cache.order == [id];
    Finish(cache, id, now);
  }

  /** Such a loss does happen: after one resource has been written, of any size that fits, and
      the cache purged, the account still holds its size. */
  method PurgeLosesTheAccount(id: string, size: nat, maxCache: nat) returns (entries: Entries, totalSize: nat)
    requires 0 < size <= maxCache
    ensures entries == map[] && totalSize == size != Sum(entries, SIZE_OF)
  {
    var cache := OneStored(id, size, 0, maxCache);
    NothingToSum();
    hide Discipline, Sum, Lists;
    SumOfOne(id, Stored(size, 0), ACCESSORS_OF);
    var ok := cache.Purge(true);
    return cache.entries, cache.totalSize;
  }

  lemma NothingToSum()
    ensures Sum(map[], SIZE_OF) == 0
  {
  }

  // ----- Runs in which eviction goes wrong -----

  /** With two entries, the second no younger, the scan finds the second if the first is idle. */
  lemma FindsSecond(m: Entries, a: string, b: string)
    requires a != b && m.Keys == {a, b} && Idle(m[a]) && m[b].modified <= m[a].modified
    ensures Lists([a, b], m) && ScanOf(m, [a, b]) == Oldest(0, 1) && Victim(m, [a, b]) == b
    ensures GivesUp(m, [a, b]) <==> !Idle(m[b])
  {
    assert forall id :: id in m <==> id == a || id == b;
    assert FirstIdle(m, [a, b], 0) && Found(m, [a, b], 0, 1);
    ScanIsUnique(m, [a, b], ScanOf(m, [a, b]), Oldest(0, 1));
  }

  /** A cache of size 1 with one resource of size 1 that is being read. */
  method OneRead(b: string, early: int) returns (cache: DiskCache)
    ensures fresh(cache) && cache.Valid() && cache.maxCache == 1 && cache.totalSize == 1 && cache.order == [b]
    ensures cache.entries == map[b := Stored(1, early).(accessors := 1)]
    ensures cache.open == multiset{Adapter(b, Reading)} && forall n :: cache.removes(n)
  {
    cache := OneStored(b, 1, early, 1);
    hide Discipline, Sum, Lists;
    SumOfOne(b, Stored(1, early).(accessors := 1), SIZE_OF);
    var ok := cache.ReadResource(b, 0, true);
    assert cache.entries == map[b := Stored(1, early).(accessors := 1)];
  }

  /** Two resources of size 1 in a cache of size 1: the older one, which comes second in the map,
      is being read when the younger one is unlocked. Eviction gives up on it, and the idle one
      stays in a cache that is overfull. */
  method EvictionGivesUp(a: string, b: string, early: int, late: int) returns (cache: DiskCache)
    requires a != b && early <= late
    ensures fresh(cache) && cache.Valid() && cache.maxCache == 1 && cache.totalSize == 2 && cache.order == [a, b]
    ensures cache.entries == Two(a, b, early, late, 1)
    ensures Adapter(b, Reading) in cache.open && forall n :: cache.removes(n)
  {
    cache := OneRead(b, early);
    hide Discipline, Sum, Lists, GivesUp, Evicted, OnlyIdleGone, OldestGone;
    Write(cache, a, 1, late, 0);
    assert cache.order == [a, b];
    assert cache.entries[a := Stored(1, late)] == Two(a, b, early, late, 1);
    FindsSecond(Two(a, b, early, late, 1), a, b);
    EvictedStep(Two(a, b, early, late, 1), [a, b], 2, 1);
    var ok := cache.UnlockResource(a, late);
    SumOfTwo(cache.entries, a, b);
  }

  /** The entries a and b, the second one older and with the given number of readers. */
  function Two(a: string, b: string, early: int, late: int, readers: nat): (m: Entries)
    requires a != b
    ensures m.Keys == {a, b} && m[a] == Stored(1, late)
    ensures m[b] == Stored(1, early).(accessors := readers) && m - {b} == map[a := Stored(1, late)]
  {
    map[a := Stored(1, late), b := Stored(1, early).(accessors := readers)]
  }

  lemma SumOfTwo(m: Entries, a: string, b: string)
    requires a != b && m.Keys == {a, b}
    ensures Sum(m, SIZE_OF) == m[a].size + m[b].size
  {
    SumWithout(m, SIZE_OF, a);
    assert m - {a} == map[b := m[b]];
    SumOfOne(b, m[b], SIZE_OF);
  }

  lemma EvictsSecond(a: string, b: string, early: int, late: int)
    requires a != b && early <= late
    ensures Lists([a, b], Two(a, b, early, late, 0))
    ensures Evicted(Two(a, b, early, late, 0), [a, b], 2, 1) == Outcome(map[a := Stored(1, late)], [a], Fits)
  {
    hide Evicted, GivesUp, Lists;
    var m := Two(a, b, early, late, 0);
    FindsSecond(m, a, b);
    EvictedStep(m, [a, b], 2, 1);
    assert Removed([a, b], b) == [a];
    EvictedStep(m - {b}, [a], 1, 1);
  }

  /** Then the reader closes its stream. */
  method BothIdle(a: string, b: string, early: int, late: int) returns (cache: DiskCache)
    requires a != b && early <= late
    ensures fresh(cache) && cache.Valid() && cache.maxCache == 1 && cache.totalSize == 2 && cache.order == [a, b]
    ensures cache.entries == Two(a, b, early, late, 0) && forall n :: cache.removes(n)
  {
    cache := EvictionGivesUp(a, b, early, late);
    hide Discipline, Sum, Lists, GivesUp, Evicted, OnlyIdleGone, OldestGone, Two;
    ReaderLeaves(a, b, early, late);
    cache.ReleaseResource(b, Reading, 0, late);
  }

  lemma ReaderLeaves(a: string, b: string, early: int, late: int)
    requires a != b
    ensures var m := Two(a, b, early, late, 1);
            m[b := m[b].(accessors := 0)] == Two(a, b, early, late, 0)
    ensures Sum(Two(a, b, early, late, 0), SIZE_OF) == 2
  {
    SumOfTwo(Two(a, b, early, late, 0), a, b);
  }

  /** And somebody locks that resource: making room evicts the very entry that is being locked. */
  method LockErases(a: string, b: string, early: int, late: int) returns (grant: Grant, entries: Entries)
    requires a != b && early <= late
    ensures grant == Erased && entries == map[a := Stored(1, late)]
  {
    var cache := BothIdle(a, b, early, late);
    hide Discipline, Sum, Lists, GivesUp, Evicted, OnlyIdleGone, OldestGone, Two, Inserted;
    EvictsSecond(a, b, early, late);
    grant := cache.LockResource(b, late, 0);
    return grant, cache.entries;
  }

  lemma RemoveAt(s: seq<Adapter>, k: nat)
    requires k < |s|
    ensures multiset(s[..k] + s[k + 1..]) == multiset(s) - multiset{s[k]}
    ensures Adapter(s[k].id, s[k].use) == s[k] && s[k] in multiset(s)
  {
    assert s == s[..k] + [s[k]] + s[k + 1..];
  }

  /** Any run of any length of operations, with any answers of the file system: the account
      and the discipline hold at its end, so at every point of every run. */
  method AnyRun(maxCache: nat, removes: nat -> bool, steps: nat)
    returns (entries: Entries, totalSize: nat, totalAccessors: nat, handles: seq<Adapter>)
    ensures totalSize == Sum(entries, SIZE_OF) && totalAccessors == Sum(entries, ACCESSORS_OF)
    ensures Discipline(entries, multiset(handles))
  {
    var cache := new DiskCache(maxCache, removes);
    handles := [];
    hide Sum, Discipline;
    for i := 0 to steps
      invariant fresh(cache) && cache.Valid() && cache.open == multiset(handles)
    {
      var pick: int, id: string, index: nat, k: int := *, *, *, *;
      var fileSize: nat, canOpen: bool, now: int := *, *, *;
      match pick {
        case 0 => var _ := cache.LockResource(id, now, index);
        case 1 => if id in cache.entries { var _ := cache.UnlockResource(id, now); }
        case 2 => var _ := cache.DeleteResource(id);
        case 3 => var _ := cache.CheckLimit();
        case 4 =>
          if id in cache.entries {
            var ok := cache.WriteResource(id, index, fileSize, canOpen);
            if ok { handles := handles + [Adapter(id, Writing)]; }
          }
        case 5 =>
          if id in cache.entries {
            var ok := cache.ReadResource(id, index, canOpen);
            if ok { handles := handles + [Adapter(id, Reading)]; }
          }
        case _ =>
          if 0 <= k < |handles| {
            RemoveAt(handles, k);
            cache.ReleaseResource(handles[k].id, handles[k].use, fileSize, now);
            handles := handles[..k] + handles[k + 1..];
          }
      }
    }
    entries, totalSize, totalAccessors := cache.entries, cache.totalSize, cache.totalAccessors;
  }

  // ----- CacheLock -----

  class CacheLock {
    const cache: DiskCache
    const id: string
    var rollback: bool
    var locked: bool

    constructor (cache: DiskCache, id: string, rollback: bool, now: int, at: nat)
      requires cache.Valid()
      modifies cache
      ensures cache.Valid() && this.cache == cache && this.id == id && this.rollback == rollback
      ensures locked ==> id in cache.entries && cache.entries[id].lock == Locked
      ensures locked && old(cache.totalSize) <= cache.maxCache ==>
                cache.entries == Locking(WithEntry(old(cache.entries), old(cache.order), id, now, at).0, id, Granted)
                && cache.open == old(cache.open)
      // The lock is refused for a busy resource, and for another only if the cache was overfull.
      ensures id in old(cache.entries) && Busy(old(cache.entries)[id]) ==>
                !locked && cache.entries == old(cache.entries)
      ensures (id in old(cache.entries) ==> !Busy(old(cache.entries)[id])) && !locked ==>
                old(cache.totalSize) > cache.maxCache
    {
      this.cache, this.id, this.rollback := cache, id, rollback;
      ghost var (m, o) := WithEntry(cache.entries, cache.order, id, now, at);
      EvictedStep(m, o, cache.totalSize, cache.maxCache);
      hide Sum, Discipline, Lists, GivesUp, OnlyIdleGone, Evicted;
      var grant := cache.LockResource(id, now, at);
      locked := grant == Granted;
    }

    method Commit()
      modifies this`rollback
      ensures !rollback
    {
      rollback := false;
    }

    /** The destructor. A locked resource is unlocked, and the limit checked; one that someone else
        has unlocked is left as it is. A rollback then removes the resource exactly when none of its
        streams is still open, and of the others only idle ones to make room. */
    method Destroy(now: int)
      requires cache.Valid() && (locked ==> id in cache.entries)
      modifies cache
      ensures cache.Valid() && cache.open == old(cache.open)
      ensures !locked ==> cache.Same(old(cache.entries), old(cache.order), old(cache.failures))
      ensures locked && old(cache.entries)[id].lock == Locked && old(cache.entries)[id].accessors > 0 ==>
                cache.Same(old(cache.entries)[id := old(cache.entries)[id].(lock := Unlocking)],
                           old(cache.order), old(cache.failures))
      ensures locked && !rollback && old(cache.entries)[id].lock == Locked && old(cache.entries)[id].accessors == 0 ==>
                cache.Rechecked(old(cache.entries), old(cache.order), id,
                                old(cache.entries)[id].(lock := Unlocked, modified := now),
                                old(cache.totalSize), old(cache.failures))
      ensures locked && !rollback && old(cache.entries)[id].lock != Locked ==>
                cache.Same(old(cache.entries), old(cache.order), old(cache.failures))
      ensures locked && rollback ==>
                (id !in cache.entries <==>
                 old(cache.entries)[id].accessors == 0 && old(cache.entries)[id].lock != Unlocking)
      ensures locked && rollback ==> OnlyIdleGone(old(cache.entries) - {id}, cache.entries - {id})
      ensures locked && rollback && old(cache.totalSize) <= cache.maxCache ==>
                cache.entries - {id} == old(cache.entries) - {id}
    {
      hide Sum, Discipline, Lists, GivesUp;
      if locked {
        cache.EntryHere(id);
        Unlock(now);
        if rollback {
          ghost var before := cache.entries;
          var _ := cache.DeleteResource(id);
          assert cache.entries - {id} == before - {id};
        }
      }
    }

    /** Unlocks, with what that does to the other entries. */
    method Unlock(now: int)
      requires cache.Valid() && id in cache.entries
      modifies cache
      ensures cache.Valid() && cache.open == old(cache.open)
      ensures old(cache.entries)[id].lock != Locked ==>
                cache.Same(old(cache.entries), old(cache.order), old(cache.failures))
      ensures old(cache.entries)[id].lock == Locked && old(cache.entries)[id].accessors > 0 ==>
                cache.Same(old(cache.entries)[id := old(cache.entries)[id].(lock := Unlocking)],
                           old(cache.order), old(cache.failures))
      ensures old(cache.entries)[id].lock == Locked && old(cache.entries)[id].accessors == 0 ==>
                cache.Rechecked(old(cache.entries), old(cache.order), id,
                                old(cache.entries)[id].(lock := Unlocked, modified := now),
                                old(cache.totalSize), old(cache.failures))
      ensures id in cache.entries ==> cache.entries[id].accessors == old(cache.entries)[id].accessors
      ensures id in cache.entries && old(cache.entries)[id].lock == Locked ==>
                cache.entries[id].lock == if cache.entries[id].accessors > 0 then Unlocking else Unlocked
      ensures OnlyIdleGone(old(cache.entries) - {id}, cache.entries - {id})
      ensures old(cache.totalSize) <= cache.maxCache ==> cache.entries - {id} == old(cache.entries) - {id}
      ensures id !in cache.entries ==> old(cache.entries)[id].lock == Locked && old(cache.entries)[id].accessors == 0
    {
      hide Sum, Discipline, Lists, GivesUp;
      ghost var (m, e) := (cache.entries, cache.entries[id].(lock := Unlocked, modified := now));
      ListsStays(cache.order, m, id, e);
      EvictedStep(m[id := e], cache.order, cache.totalSize, cache.maxCache);
      hide Evicted;
      var _ := cache.UnlockResource(id, now);
      NothingGone(m - {id});
      assert m[id := e] - {id} == m - {id};
      assert m[id := m[id].(lock := Unlocking)] - {id} == m - {id};
      if m[id].lock == Locked && m[id].accessors == 0 {
        GoneElsewhere(m[id := e], cache.entries, id);
      }
    }
  }

  /** The first half of the ordinary course: a new resource is locked and written. */
  method LockAndWrite(id: string, size: nat, maxCache: nat) returns (lock: CacheLock)
    ensures fresh(lock) && fresh(lock.cache) && lock.cache.Valid() && lock.cache.maxCache == maxCache
    ensures lock.id == id && lock.locked && lock.rollback
    ensures lock.cache.entries == map[id := Stored(size, 0).(lock := Locked)]
  {
    var cache := new DiskCache(maxCache, n => true);
    NothingToSum();
    hide Discipline, Sum, Lists, GivesUp;
    lock := new CacheLock(cache, id, true, 0, 0);
    assert lock.locked;
    assert cache.entries == map[id := Fresh(0).(lock := Locked)];
    var ok := cache.WriteResource(id, 0, 0, true);
    cache.ReleaseResource(id, Writing, size, 0);
    assert cache.entries == map[id := Stored(size, 0).(lock := Locked)];
  }

  /** Then it is committed, and can be read. */
  method CommitKeeps(id: string, size: nat, maxCache: nat) returns (readable: bool, entries: Entries)
    requires size <= maxCache
    ensures readable && entries == map[id := Stored(size, 1).(accessors := 1)]
  {
    hide Discipline, Sum, Lists, GivesUp;
    var lock := LockAndWrite(id, size, maxCache);
    var cache := lock.cache;
    SumOfOne(id, Stored(size, 0).(lock := Locked), SIZE_OF);
    lock.Commit();
    ghost var e := Stored(size, 1);
    ListsStays(cache.order, cache.entries, id, e);
    EvictedStep(cache.entries[id := e], cache.order, cache.totalSize, cache.maxCache);
    lock.Destroy(1);
    assert cache.entries == map[id := Stored(size, 1)];
    readable := cache.ReadResource(id, 0, true);
    return readable, cache.entries;
  }
}
