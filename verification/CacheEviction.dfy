/** The eviction of src/talk/base/diskcache.cc (CheckLimit) on values: which entry the scan of the
    map finds, and what round after round of it leaves. */
module CacheEviction {

  datatype LockState = Unlocked | Locked | Unlocking

  datatype Entry = Entry(lock: LockState, accessors: nat, size: nat, streams: nat, modified: int)

  type Entries = map<string, Entry>

  predicate Idle(e: Entry) {
    e.lock == Unlocked && e.accessors == 0
  }

  /** Some idle entries have gone, and nothing else has changed. */
  ghost predicate OnlyIdleGone(before: Entries, after: Entries) {
    && after.Keys <= before.Keys
    && (forall id :: id in after ==> after[id] == before[id])
    && (forall id :: id in before && id !in after ==> Idle(before[id]))
  }

  /** What has gone was modified no later than any idle entry that has stayed. */
  ghost predicate OldestGone(before: Entries, after: Entries) {
    forall id, j :: id in before && id !in after && j in before && j in after && Idle(before[j]) ==>
      before[id].modified <= before[j].modified
  }

  lemma NothingGone(m: Entries)
    ensures OnlyIdleGone(m, m) && OldestGone(m, m)
  {
  }

  lemma GoneInTwoSteps(a: Entries, b: Entries, c: Entries)
    requires OnlyIdleGone(a, b) && OldestGone(a, b) && OnlyIdleGone(b, c) && OldestGone(b, c)
    ensures OnlyIdleGone(a, c) && OldestGone(a, c)
  {
  }

  lemma SmallerWithout(m: Entries, id: string)
    requires id in m
    ensures |m - {id}| < |m| && m - {id} != m
    ensures Idle(m[id]) ==> OnlyIdleGone(m, m - {id})
  {
    assert m.Keys == (m - {id}).Keys + {id};
  }

  // ----- The order of the map -----

  /** An order in which the entries are met. */
  ghost predicate Lists(order: seq<string>, m: Entries) {
    (forall id :: id in m <==> id in order) && Distinct(order)
  }

  ghost predicate Distinct(s: seq<string>) {
    forall i, j :: 0 <= i < j < |s| ==> s[i] != s[j]
  }

  function Removed(order: seq<string>, id: string): (r: seq<string>)
    ensures |r| <= |order|
  {
    if order == [] then [] else if order[0] == id then order[1..] else [order[0]] + Removed(order[1..], id)
  }

  /** A new key at its place, or at the end. */
  function Inserted(order: seq<string>, id: string, at: nat): seq<string> {
    if at < |order| then order[..at] + [id] + order[at..] else order + [id]
  }

  lemma {:induction false} RemovedMembers(order: seq<string>, id: string)
    requires Distinct(order) && id in order
    ensures Distinct(Removed(order, id)) && |Removed(order, id)| == |order| - 1
    ensures forall j :: j in Removed(order, id) <==> j in order && j != id
  {
    var rest := order[1..];
    assert order == [order[0]] + rest && Distinct(rest) && order[0] !in rest;
    if order[0] != id {
      RemovedMembers(rest, id);
      DistinctCons(order[0], Removed(rest, id));
    }
  }

  lemma DistinctCons(x: string, s: seq<string>)
    requires Distinct(s) && x !in s
    ensures Distinct([x] + s)
  {
  }

  lemma RemovedLists(order: seq<string>, m: Entries, id: string)
    requires Lists(order, m) && id in m
    ensures Lists(Removed(order, id), m - {id}) && |Removed(order, id)| == |order| - 1
  {
    hide Distinct, Removed;
    RemovedMembers(order, id);
  }

  lemma InsertedLists(order: seq<string>, m: Entries, id: string, at: nat, e: Entry)
    requires Lists(order, m) && id !in m
    ensures Lists(Inserted(order, id, at), m[id := e])
  {
    var r := Inserted(order, id, at);
    var n := if at < |order| then at else |order|;
    assert r == order[..n] + [id] + order[n..];
    forall j | j in m ensures j in r {
      var k :| 0 <= k < |order| && order[k] == j;
      assert r[if k < n then k else k + 1] == j;
    }
    assert r[n] == id;
  }

  lemma ListsStays(order: seq<string>, m: Entries, id: string, e: Entry)
    requires Lists(order, m) && id in m
    ensures Lists(order, m[id := e])
  {
  }

  // ----- The scan for the oldest entry -----

  /** What the two loops of CheckLimit come to. */
  datatype Scan =
    | AllInUse                         // no entry is idle
    | PastTheEnd                       // the only idle entry is the last one: the scan leaves the map
    | Oldest(first: nat, index: nat)   // the first idle entry, and the one that is proposed

  /** Position i is that of the first idle entry. */
  ghost predicate FirstIdle(m: Entries, order: seq<string>, i: nat)
    requires Lists(order, m)
  {
    i < |order| && Idle(m[order[i]]) && forall j :: 0 <= j < i ==> !Idle(m[order[j]])
  }

  /** Position i, at or behind the first idle entry, holds a least recently modified entry of
      those from there on, in use or not: the one right behind the first idle one, if it is such,
      and otherwise the first such. */
  ghost predicate Found(m: Entries, order: seq<string>, first: nat, i: nat)
    requires Lists(order, m) && first + 1 < |order|
  {
    && first <= i < |order|
    && (forall j :: first <= j < |order| ==> m[order[i]].modified <= m[order[j]].modified)
    && (i == first + 1 ||
        (m[order[i]].modified < m[order[first + 1]].modified
         && forall j :: first <= j < i ==> m[order[i]].modified < m[order[j]].modified))
  }

  /** What the scan must come to. */
  ghost predicate Scans(m: Entries, order: seq<string>, r: Scan)
    requires Lists(order, m)
  {
    match r
    case AllInUse => forall id :: id in m ==> !Idle(m[id])
    case PastTheEnd => order != [] && FirstIdle(m, order, |order| - 1)
    case Oldest(first, i) => first + 1 < |order| && FirstIdle(m, order, first) && Found(m, order, first, i)
  }

  ghost function FirstIdleFrom(m: Entries, order: seq<string>, k: nat): (r: nat)
    requires Lists(order, m) && k <= |order|
    ensures k <= r <= |order| && (r < |order| ==> Idle(m[order[r]]))
    ensures forall j :: k <= j < r ==> !Idle(m[order[j]])
    decreases |order| - k
  {
    if k == |order| || Idle(m[order[k]]) then k else FirstIdleFrom(m, order, k + 1)
  }

  /** The first of the least recently modified entries at positions from first to k. */
  ghost function LeastModified(m: Entries, order: seq<string>, first: nat, k: nat): (r: nat)
    requires Lists(order, m) && first < k <= |order|
    ensures first <= r < k && forall j :: first <= j < k ==> m[order[r]].modified <= m[order[j]].modified
    ensures forall j :: first <= j < r ==> m[order[r]].modified < m[order[j]].modified
    decreases k
  {
    if k == first + 1 then first
    else
      var r := LeastModified(m, order, first, k - 1);
      if m[order[k - 1]].modified < m[order[r]].modified then k - 1 else r
  }

  ghost function ScanOf(m: Entries, order: seq<string>): (r: Scan)
    requires Lists(order, m)
    ensures Scans(m, order, r)
  {
    var first := FirstIdleFrom(m, order, 0);
    if first == |order| then AllInUse
    else if first + 1 == |order| then PastTheEnd
    else
      var least := LeastModified(m, order, first, |order|);
      Oldest(first, if m[order[first + 1]].modified == m[order[least]].modified then first + 1 else least)
  }

  /** The entries and their order decide what the scan comes to. */
  lemma ScanIsUnique(m: Entries, order: seq<string>, r: Scan, s: Scan)
    requires Lists(order, m) && Scans(m, order, r) && Scans(m, order, s)
    ensures r == s
  {
  }

  method ScanForOldest(m: Entries, order: seq<string>) returns (r: Scan)
    requires Lists(order, m)
    ensures r == ScanOf(m, order)
  {
    hide ScanOf;
    var first := 0;
    while first < |order| && !Idle(m[order[first]])
      invariant first <= |order| && forall j :: 0 <= j < first ==> !Idle(m[order[j]])
    {
      first := first + 1;
    }
    if first == |order| {
      ScanIsUnique(m, order, AllInUse, ScanOf(m, order));
      return AllInUse;
    }
    assert FirstIdle(m, order, first);
    if first + 1 == |order| {
      ScanIsUnique(m, order, PastTheEnd, ScanOf(m, order));
      return PastTheEnd;
    }
    var oldest, it := first + 1, first;
    while it < |order|
      invariant first <= it <= |order| && first <= oldest < |order|
      invariant forall j :: first <= j < it ==> m[order[oldest]].modified <= m[order[j]].modified
      invariant m[order[oldest]].modified <= m[order[first + 1]].modified
      invariant oldest == first + 1 || oldest < it
      invariant oldest != first + 1 ==> m[order[oldest]].modified < m[order[first + 1]].modified
      invariant oldest != first + 1 ==>
                  forall j :: first <= j < oldest ==> m[order[oldest]].modified < m[order[j]].modified
    {
      if m[order[it]].modified < m[order[oldest]].modified { oldest := it; }
      it := it + 1;
    }
    ScanIsUnique(m, order, Oldest(first, oldest), ScanOf(m, order));
    return Oldest(first, oldest);
  }

  /** The entry that a round proposes to delete, when the scan stays within the map. */
  ghost function Victim(m: Entries, order: seq<string>): (id: string)
    requires Lists(order, m) && ScanOf(m, order).Oldest?
    ensures id in m
  {
    order[ScanOf(m, order).index]
  }

  /** The scan stays within the map and what it finds, if anything, is in use: no entry goes. */
  ghost predicate GivesUp(m: Entries, order: seq<string>)
    requires Lists(order, m)
  {
    match ScanOf(m, order)
    case AllInUse => true
    case PastTheEnd => false
    case Oldest(_, _) => !Idle(m[Victim(m, order)])
  }

  /** The scan steps past the end exactly if a single entry is idle and it is the last one. */
  lemma PastTheEndIff(m: Entries, order: seq<string>)
    requires Lists(order, m)
    ensures ScanOf(m, order).PastTheEnd? <==>
            order != [] && forall id :: id in m ==> (Idle(m[id]) <==> id == order[|order| - 1])
  {
    hide ScanOf;
    var r := ScanOf(m, order);
    if order != [] && forall id :: id in m ==> (Idle(m[id]) <==> id == order[|order| - 1]) {
      assert FirstIdle(m, order, |order| - 1);
      ScanIsUnique(m, order, r, PastTheEnd);
    }
    if r.PastTheEnd? {
      forall id | id in m ensures Idle(m[id]) <==> id == order[|order| - 1] {
        var i :| 0 <= i < |order| && order[i] == id;
      }
    }
  }

  /** What the scan finds is as old as every idle entry. */
  lemma VictimIsOldest(m: Entries, order: seq<string>)
    requires Lists(order, m) && ScanOf(m, order).Oldest?
    ensures forall id :: id in m && Idle(m[id]) ==> m[Victim(m, order)].modified <= m[id].modified
    ensures Idle(m[Victim(m, order)]) ==> OldestGone(m, m - {Victim(m, order)})
  {
    var v := Victim(m, order);
    forall id | id in m && Idle(m[id]) ensures m[v].modified <= m[id].modified {
      var j :| 0 <= j < |order| && order[j] == id;
    }
  }

  // ----- Round after round -----

  datatype Verdict = Fits | GaveUp | OffTheEnd

  datatype Outcome = Outcome(entries: Entries, order: seq<string>, verdict: Verdict)

  /** What CheckLimit leaves, if every file can be removed: rounds go on until the rest fits, a
      round gives up, or the scan steps past the end. */
  ghost function Evicted(m: Entries, order: seq<string>, total: int, max: int): Outcome
    requires Lists(order, m)
    decreases |order|
  {
    if total <= max then Outcome(m, order, Fits)
    else if GivesUp(m, order) then Outcome(m, order, GaveUp)
    else if ScanOf(m, order).PastTheEnd? then Outcome(m, order, OffTheEnd)
    else
      var v := Victim(m, order);
      RemovedLists(order, m, v);
      Evicted(m - {v}, Removed(order, v), total - m[v].size, max)
  }

  /** Only idle entries go, none before an older idle one, and it ends in a state in which nothing
      more is to be done or nothing more can be. */
  lemma {:induction false} EvictedMeans(m: Entries, order: seq<string>, total: int, max: int)
    requires Lists(order, m)
    ensures var r := Evicted(m, order, total, max);
            && OnlyIdleGone(m, r.entries) && OldestGone(m, r.entries) && Lists(r.order, r.entries)
            && (r.verdict == GaveUp ==> GivesUp(r.entries, r.order))
            && (r.verdict == OffTheEnd ==> ScanOf(r.entries, r.order).PastTheEnd?)
            && (r.entries == m <==> total <= max || !ScanOf(m, order).Oldest? || GivesUp(m, order))
    decreases |order|
  {
    hide Lists, OnlyIdleGone, OldestGone, ScanOf, GivesUp, Victim, Idle, Removed;
    RoundMeans(m, order);
    if total <= max || GivesUp(m, order) || ScanOf(m, order).PastTheEnd? {
      NothingGone(m);
    } else {
      var v := Victim(m, order);
      RemovedLists(order, m, v);
      SmallerWithout(m, v);
      VictimIsOldest(m, order);
      EvictedMeans(m - {v}, Removed(order, v), total - m[v].size, max);
      var r := Evicted(m - {v}, Removed(order, v), total - m[v].size, max);
      assert Evicted(m, order, total, max) == r;
      hide Evicted;
      GoneInTwoSteps(m, m - {v}, r.entries);
      StaysGone(m - {v}, r.entries, v);
    }
  }

  /** One round: the three cases exclude each other. */
  lemma RoundMeans(m: Entries, order: seq<string>)
    requires Lists(order, m)
    ensures !GivesUp(m, order) && !ScanOf(m, order).PastTheEnd? ==>
              ScanOf(m, order).Oldest? && Idle(m[Victim(m, order)])
    ensures ScanOf(m, order).Oldest? ==> (GivesUp(m, order) <==> !Idle(m[Victim(m, order)]))
    ensures ScanOf(m, order).PastTheEnd? ==> !GivesUp(m, order)
  {
    hide ScanOf, Lists;
  }

  lemma StaysGone(m: Entries, r: Entries, v: string)
    requires OnlyIdleGone(m, r) && v !in m
    ensures v !in r
  {
  }

  lemma EvictedStep(m: Entries, order: seq<string>, total: int, max: int)
    requires Lists(order, m)
    ensures var r := Evicted(m, order, total, max);
            if total <= max then r == Outcome(m, order, Fits)
            else if GivesUp(m, order) then r == Outcome(m, order, GaveUp)
            else if ScanOf(m, order).PastTheEnd? then r.verdict == OffTheEnd
            else ScanOf(m, order).Oldest? &&
                 var v := Victim(m, order);
                 Lists(Removed(order, v), m - {v})
                 && r == Evicted(m - {v}, Removed(order, v), total - m[v].size, max)
  {
    hide ScanOf, Idle, Lists;
    RoundMeans(m, order);
    if ScanOf(m, order).Oldest? {
      RemovedLists(order, m, Victim(m, order));
    }
  }

  /** What has changed once has not changed back. */
  lemma MoreGone(a: Entries, b: Entries, c: Entries)
    requires OnlyIdleGone(a, b) && OnlyIdleGone(b, c)
    ensures b != a || c != b ==> c != a
  {
    if c == a {
      assert a.Keys == b.Keys;
      assert b == a;
    }
  }

  lemma OneIsIdle(m: Entries, order: seq<string>)
    requires Lists(order, m) && ScanOf(m, order).PastTheEnd?
    ensures m != map[]
  {
    PastTheEndIff(m, order);
    assert order[|order| - 1] in m;
  }

  lemma SingleMayGo(m: Entries, order: seq<string>, id: string)
    requires Lists(order, m) && ScanOf(m, order).PastTheEnd? && id in m
    ensures Idle(m[id]) ==> OldestGone(m, m - {id})
  {
    PastTheEndIff(m, order);
  }
}
