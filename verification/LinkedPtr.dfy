/** linked_ptr of src/talk/base/linked_ptr.h: the owners of an object form a ring of
    pointers to each other, and the last one to let go deletes the object. */
module LinkedPtrs {

  /** An object that linked_ptrs own, with the linked_ptrs that are members of it. */
  class Object {
    const members: set<Ptr>

    constructor (members: set<Ptr>)
      ensures this.members == members
    {
      this.members := members;
    }
  }

  /** One linked_ptr. */
  class Ptr {
    var obj: Object?
    var prev: Ptr?
    var next: Ptr?

    /** `linked_ptr(X* p)`. */
    constructor (p: Object?)
      ensures obj == p && prev == next == this
    {
      obj, prev, next := p, this, this;
    }

    predicate Unique()
      reads this
    {
      if prev != null then prev == this else true
    }
  }

  /** The five assignments of `acquire`. */
  method Splice(p: Ptr, r: Ptr)
    requires r.next != null && p != r && p != r.next
    modifies p, r, r.next
    ensures p.obj == old(r.obj) && p.prev == r && p.next == old(r.next)
    ensures r.next == p && r.obj == old(r.obj)
    ensures r.prev == if old(r.next) == r then p else old(r.prev)
    ensures var n := old(r.next);
            n.prev == p && n.obj == old(r.next.obj) && n.next == if n == r then p else old(r.next.next)
  {
    p.obj := r.obj;
    p.next := r.next;
    p.next.prev := p;
    p.prev := r;
    r.next := p;
  }

  /** The unlinking of `release`. */
  method Unlink(p: Ptr)
    requires p.next != null && p.prev != null && p.next != p && p.prev != p
    modifies p, p.next, p.prev
    ensures p.prev == null && p.next == null && p.obj == null && p.Unique()
    ensures var n := old(p.next);
            n.prev == old(p.prev) && n.obj == old(p.next.obj)
            && n.next == if old(p.prev) == n then n else old(p.next.next)
    ensures var b := old(p.prev);
            b.next == old(p.next) && b.obj == old(p.prev.obj)
            && b.prev == if old(p.next) == b then b else old(p.prev.prev)
  {
    p.prev.next := p.next;
    p.next.prev := p.prev;
    p.prev, p.next := null, null;
    p.obj := null;
  }

  // ----- One ring -----

  /** For each live pointer its `prev` and its `next`. */
  datatype Link = Link(prev: Ptr, next: Ptr)
  type Links = map<Ptr, Link>

  function Next(i: nat, n: nat): nat
    requires i < n
  {
    if i + 1 == n then 0 else i + 1
  }

  ghost predicate Distinct<T>(s: seq<T>) {
    forall i, j :: 0 <= i < j < |s| ==> s[i] != s[j]
  }

  ghost predicate Neighbours(l: Links, p: Ptr, q: Ptr) {
    p in l && q in l && l[p].next == q && l[q].prev == p
  }

  /** The sequence lists a ring: each pointer is followed by its `next`, and the last one by
      the first. */
  ghost predicate Linked(l: Links, s: seq<Ptr>) {
    |s| > 0 && Distinct(s) && forall i :: 0 <= i < |s| ==> Neighbours(l, s[i], s[Next(i, |s|)])
  }

  /** A ring may be listed from any of its pointers. */
  lemma Rotate(l: Links, s: seq<Ptr>, p: Ptr) returns (t: seq<Ptr>)
    requires Linked(l, s) && p in s
    ensures Linked(l, t) && |t| == |s| && t[|t| - 1] == p && forall q :: q in t <==> q in s
  {
    var i :| 0 <= i < |s| && s[i] == p;
    t := s[i + 1..] + s[..i + 1];
    var n := |s|;
    forall j | 0 <= j < n ensures Neighbours(l, t[j], t[Next(j, n)]) {
      hide Neighbours, Distinct;
      RotatedIndex(s, i, j);
    }
    assert Distinct(t);
    SameMembers(s, i);
  }

  lemma RotatedIndex(s: seq<Ptr>, i: nat, j: nat)
    requires i < |s| && j < |s|
    ensures var (t, j') := (s[i + 1..] + s[..i + 1], if j < |s| - i - 1 then j + i + 1 else j - (|s| - i - 1));
            0 <= j' < |s| && t[j] == s[j'] && t[Next(j, |s|)] == s[Next(j', |s|)]
  {
  }

  lemma SameMembers(s: seq<Ptr>, i: nat)
    requires i < |s|
    ensures forall q :: q in s[i + 1..] + s[..i + 1] <==> q in s
  {
    assert s == s[..i + 1] + s[i + 1..];
  }

  /** The links after `acquire` has put `p` behind `r`. */
  function Spliced(l: Links, p: Ptr, r: Ptr): Links
    requires r in l && l[r].next in l
  {
    var n := l[r].next;
    var l1 := l[n := l[n].(prev := p)];
    l1[r := l1[r].(next := p)][p := Link(r, n)]
  }

  lemma SplicedLinked(l: Links, s: seq<Ptr>, p: Ptr, r: Ptr)
    requires Linked(l, s) && s[|s| - 1] == r && p !in s
    ensures Neighbours(l, r, s[0]) && Linked(Spliced(l, p, r), s + [p])
  {
    var (n, t) := (|s|, s + [p]);
    assert Neighbours(l, s[n - 1], s[Next(n - 1, n)]);
    var l' := Spliced(l, p, r);
    forall j | 0 <= j < n + 1 ensures Neighbours(l', t[j], t[Next(j, n + 1)]) {
      if j < n - 1 { assert Neighbours(l, s[j], s[Next(j, n)]); }
    }
  }

  /** The links after `release` has taken out `p`. */
  function Unlinked(l: Links, p: Ptr): Links
    requires p in l && l[p].next in l && l[p].prev in l
  {
    var (before, after) := (l[p].prev, l[p].next);
    var l1 := l[before := l[before].(next := after)];
    l1[after := l1[after].(prev := before)] - {p}
  }

  lemma UnlinkedLinked(l: Links, s: seq<Ptr>, p: Ptr)
    requires Linked(l, s) && |s| > 1 && s[|s| - 1] == p
    ensures Neighbours(l, p, s[0]) && Neighbours(l, s[|s| - 2], p) && s[0] != p && s[|s| - 2] != p
    ensures Linked(Unlinked(l, p), s[..|s| - 1])
  {
    var (n, t) := (|s|, s[..|s| - 1]);
    assert Neighbours(l, s[n - 1], s[Next(n - 1, n)]) && Neighbours(l, s[n - 2], s[Next(n - 2, n)]);
    var l' := Unlinked(l, p);
    forall j | 0 <= j < n - 1 ensures Neighbours(l', t[j], t[Next(j, n - 1)]) {
      if j < n - 2 { assert Neighbours(l, s[j], s[Next(j, n)]); }
    }
  }

  /** A ring whose pointers have not been touched. */
  lemma StaysLinked(l: Links, l': Links, s: seq<Ptr>)
    requires Linked(l, s) && forall q :: q in s && q in l ==> q in l' && l'[q] == l[q]
    ensures Linked(l', s)
  {
    forall j | 0 <= j < |s| ensures Neighbours(l', s[j], s[Next(j, |s|)]) {
      assert Neighbours(l, s[j], s[Next(j, |s|)]);
    }
  }

  // ----- All rings -----

  /** The live pointers with the number of their ring, and the rings by number. */
  datatype Rings = Rings(id: map<Ptr, nat>, ring: map<nat, seq<Ptr>>)

  ghost predicate Partition(a: Rings) {
    && (forall p :: p in a.id ==> a.id[p] in a.ring && p in a.ring[a.id[p]])
    && (forall k, q :: k in a.ring && q in a.ring[k] ==> q in a.id && a.id[q] == k)
  }

  /** The rings are well formed and partition the live pointers. */
  ghost predicate Formed(a: Rings, l: Links) {
    l.Keys == a.id.Keys && Partition(a) && forall k :: k in a.ring ==> Linked(l, a.ring[k])
  }

  function Joined(a: Rings, k: nat, t: seq<Ptr>, p: Ptr): Rings {
    Rings(a.id[p := k], a.ring[k := t])
  }

  function Left(a: Rings, k: nat, t: seq<Ptr>, p: Ptr): Rings {
    Rings(a.id - {p}, if t == [] then a.ring - {k} else a.ring[k := t])
  }

  lemma PartitionFacts(a: Rings, p: Ptr)
    requires Partition(a) && p in a.id
    ensures a.id[p] in a.ring && p in a.ring[a.id[p]]
  {
  }

  lemma PartitionMember(a: Rings, k: nat, q: Ptr)
    requires Partition(a) && k in a.ring && q in a.ring[k]
    ensures q in a.id && a.id[q] == k
  {
  }

  lemma JoinedPartition(a: Rings, k: nat, t: seq<Ptr>, p: Ptr)
    requires Partition(a) && k in a.ring && p !in a.id
    requires forall q :: q in t <==> q == p || q in a.ring[k]
    ensures Partition(Joined(a, k, t, p))
  {
  }

  lemma LeftPartition(a: Rings, k: nat, t: seq<Ptr>, p: Ptr)
    requires Partition(a) && k in a.ring && p in a.ring[k]
    requires forall q :: q in t <==> q != p && q in a.ring[k]
    ensures Partition(Left(a, k, t, p))
  {
    var b := Left(a, k, t, p);
    forall q | q in b.id ensures b.id[q] in b.ring && q in b.ring[b.id[q]] {
      assert a.id[q] in a.ring && q in a.ring[a.id[q]];
    }
    forall j, q | j in b.ring && q in b.ring[j] ensures q in b.id && b.id[q] == j {
      assert q in a.ring[j] && a.id[p] == k;
    }
  }

  /** The other rings stay as they are. */
  lemma OthersStay(a: Rings, l: Links, l': Links, k: nat)
    requires Formed(a, l)
    requires forall q :: q in a.id && a.id[q] != k ==> q in l' && l'[q] == l[q]
    ensures forall j :: j in a.ring && j != k ==> Linked(l', a.ring[j])
  {
    hide Linked;
    forall j | j in a.ring && j != k ensures Linked(l', a.ring[j]) {
      StaysLinked(l, l', a.ring[j]);
    }
  }

  lemma AcquireKeeps(a: Rings, l: Links, p: Ptr, r: Ptr) returns (t: seq<Ptr>)
    requires Formed(a, l) && r in a.id && p !in a.id
    ensures l[r].next in l && Formed(Joined(a, a.id[r], t, p), Spliced(l, p, r))
  {
    hide Linked, Distinct, Partition;
    PartitionFacts(a, r);
    var k := a.id[r];
    var s := Rotate(l, a.ring[k], r);
    t := s + [p];
    if p in s { PartitionMember(a, k, p); }
    SplicedLinked(l, s, p, r);
    PartitionMember(a, k, s[0]);
    JoinedPartition(a, k, t, p);
    OthersStay(a, l, Spliced(l, p, r), k);
  }

  lemma ReleaseKeeps(a: Rings, l: Links, p: Ptr) returns (t: seq<Ptr>)
    requires Formed(a, l) && p in a.id && a.id[p] in a.ring && a.ring[a.id[p]] != [p]
    ensures l[p].next in l && l[p].prev in l && l[p].next != p && l[p].prev != p && t != []
    ensures Formed(Left(a, a.id[p], t, p), Unlinked(l, p))
  {
    hide Linked, Distinct, Partition;
    PartitionFacts(a, p);
    var k := a.id[p];
    var s := Rotate(l, a.ring[k], p);
    if |s| == 1 { SingletonRing(a.ring[k], p, s); }
    t := s[..|s| - 1];
    UnlinkedLinked(l, s, p);
    AllButLast(l, s, p);
    PartitionMember(a, k, s[0]);
    PartitionMember(a, k, s[|s| - 2]);
    LeftPartition(a, k, t, p);
    OthersStay(a, l, Unlinked(l, p), k);
  }

  lemma AllButLast(l: Links, s: seq<Ptr>, p: Ptr)
    requires Linked(l, s) && s[|s| - 1] == p
    ensures forall q :: q in s[..|s| - 1] <==> q != p && q in s
  {
  }

  lemma LastReleaseKeeps(a: Rings, l: Links, p: Ptr)
    requires Formed(a, l) && p in a.id && a.id[p] in a.ring && a.ring[a.id[p]] == [p]
    ensures Formed(Left(a, a.id[p], [], p), l - {p})
  {
    hide Linked, Partition;
    PartitionFacts(a, p);
    LeftPartition(a, a.id[p], [], p);
    OthersStay(a, l, l - {p}, a.id[p]);
  }

  /** `unique()` is true of the only owner. */
  lemma UniqueMeansAlone(a: Rings, l: Links, p: Ptr)
    requires Formed(a, l) && p in a.id
    ensures l[p].prev == p <==> a.ring[a.id[p]] == [p]
  {
    var s := Rotate(l, a.ring[a.id[p]], p);
    var n := |s|;
    if n > 1 {
      assert Neighbours(l, s[n - 2], s[Next(n - 2, n)]) && s[n - 2] != s[n - 1];
    } else {
      assert Neighbours(l, s[0], s[Next(0, 1)]);
      SingletonRing(a.ring[a.id[p]], p, s);
    }
  }

  lemma SingletonRing(s: seq<Ptr>, p: Ptr, t: seq<Ptr>)
    requires |s| == |t| == 1 && p in s
    ensures s == [p]
  {
  }

  // ----- Which objects are owned -----

  /** The object of each ring. */
  type Targets = map<nat, Object?>

  ghost function Owned(target: Targets): set<Object> {
    set k | k in target && target[k] != null :: target[k]
  }

  /** No object has two rings; every object adopted is either owned or deleted, not both;
      and none is deleted twice. */
  ghost predicate Accounts(target: Targets, adopted: set<Object>, deleted: seq<Object>) {
    && (forall j, k :: j in target && k in target && j != k && target[j] == target[k] ==> target[j] == null)
    && adopted == Owned(target) + (set o | o in deleted)
    && (forall o :: o in deleted ==> o !in Owned(target))
    && Distinct(deleted)
  }

  lemma AdoptedOne(target: Targets, adopted: set<Object>, deleted: seq<Object>, k: nat, o: Object?)
    requires Accounts(target, adopted, deleted) && k !in target && (o != null ==> o !in adopted)
    ensures Accounts(target[k := o], if o == null then adopted else adopted + {o}, deleted)
  {
    var t := target[k := o];
    assert forall j :: j in target ==> t[j] == target[j] && (target[j] != null ==> target[j] in Owned(target));
    assert Owned(t) == if o == null then Owned(target) else Owned(target) + {o} by {
      assert t[k] == o;
    }
  }

  lemma DroppedOne(target: Targets, adopted: set<Object>, deleted: seq<Object>, k: nat)
    requires Accounts(target, adopted, deleted) && k in target
    ensures Accounts(target - {k}, adopted, if target[k] == null then deleted else deleted + [target[k]])
  {
    var (t, o) := (target - {k}, target[k]);
    assert forall j :: j in t ==> t[j] == target[j];
    assert Owned(t) == Owned(target) - {o};
    if o != null {
      assert o in Owned(target) && o !in deleted;
      assert (set x | x in deleted + [o]) == (set x | x in deleted) + {o};
    }
  }

  // ----- The world of live pointers -----

  class World {
    ghost var all: Rings                  // the live pointers and their rings
    ghost var links: Links                // how they are linked
    ghost var target: Targets             // the object that each ring owns
    ghost var adopted: set<Object>        // objects ever handed to a linked_ptr
    ghost var count: nat                  // the next free ring number
    var deleted: seq<Object>              // objects deleted, in order

    /** The fields of a pointer are what the rings say. */
    ghost predicate InPlace(p: Ptr)
      reads this, p
      requires p in links && p in all.id && all.id[p] in target
    {
      p.prev == links[p].prev && p.next == links[p].next && p.obj == target[all.id[p]]
    }

    ghost predicate Placed()
      reads this, all.id.Keys
    {
      forall p :: p in all.id ==> p in links && all.id[p] in target && InPlace(p)
    }

    ghost predicate Valid()
      reads this, all.id.Keys
    {
      && Formed(all, links) && Accounts(target, adopted, deleted)
      && all.ring.Keys == target.Keys
      && (forall k :: k in target ==> k < count)
      && Placed()
    }

    constructor ()
      ensures Valid() && all.id == map[] && deleted == [] && adopted == {}
    {
      all, links, target, adopted, count, deleted := Rings(map[], map[]), map[], map[], {}, 0, [];
    }

    /** `linked_ptr(X* p)`: a ring of one. The caller must not have handed out `o` before. */
    method New(o: Object?) returns (p: Ptr)
      requires Valid() && (o != null ==> o !in adopted)
      modifies this
      ensures Valid() && fresh(p) && p.obj == o && deleted == old(deleted)
      ensures all.id.Keys == old(all.id.Keys) + {p} && all.ring[all.id[p]] == [p]
      ensures forall q :: q in old(all.id) ==> all.id[q] == old(all.id[q])
      ensures adopted == old(adopted) + (if o == null then {} else {o})
    {
      hide Accounts, Distinct, Linked, Formed, Owned, Placed, InPlace;
      assert Placed();
      p := new Ptr(o);
      AdoptedOne(target, adopted, deleted, count, o);
      FormedKeys(all, links);
      NewKeeps(all, links, count, p);
      Enter(p, if o == null then adopted else adopted + {o});
    }

    /** Notes a pointer that is a ring of its own. */
    ghost method Enter(p: Ptr, objects: set<Object>)
      requires Placed() && p !in all.id && p.prev == p.next == p && (forall k :: k in target ==> k < count)
      modifies this`all, this`links, this`target, this`count, this`adopted
      ensures adopted == objects
      ensures Placed() && all == Joined(old(all), old(count), [p], p)
      ensures links == old(links)[p := Link(p, p)] && target == old(target)[old(count) := p.obj]
      ensures count == old(count) + 1
    {
      all, links := Joined(all, count, [p], p), links[p := Link(p, p)];
      target, count, adopted := target[count := p.obj], count + 1, objects;
    }

    /** The copy constructor. */
    method Copy(r: Ptr) returns (p: Ptr)
      requires Valid() && r in all.id
      modifies this`all, this`links, all.id.Keys
      ensures Valid() && fresh(p) && p.obj == old(r.obj)
      ensures all.id == old(all.id)[p := old(all.id)[r]]
    {
      p := new Ptr(null);
      FormedKeys(all, links);
      Acquire(p, r);
    }

    /** `operator=`, also between members of one ring and of a pointer to itself. */
    method Assign(p: Ptr, r: Ptr)
      requires Valid() && p in all.id && r in all.id
      modifies this`all, this`links, this`target, this`deleted, all.id.Keys
      ensures Valid() && all.id.Keys == old(all.id.Keys) && all.id[p] == all.id[r]
      ensures p.obj == old(r.obj)
      ensures forall q :: q in all.id && q != p ==> all.id[q] == old(all.id[q])
      // The old object of `p` goes exactly when no other live pointer owned it.
      ensures deleted == old(deleted) +
                (if p != r && old(p.obj) != null && old(all.ring[all.id[p]]) == [p] then [old(p.obj)] else [])
    {
      hide Accounts, Formed, Placed, InPlace;
      FormedKeys(all, links);
      SameRingSameObject(p, r);
      if p != r {
        Release(p);
        FormedKeys(all, links);
        Acquire(p, r);
      }
    }

    lemma SameRingSameObject(p: Ptr, r: Ptr)
      requires Valid() && p in all.id && r in all.id
      ensures all.id[p] == all.id[r] ==> p.obj == r.obj
    {
      assert InPlace(p) && InPlace(r);
    }

    /** The destructor. */
    method Destroy(p: Ptr)
      requires Valid() && p in all.id
      modifies this`all, this`links, this`target, this`deleted, all.id.Keys
      ensures Valid() && all.id == old(all.id) - {p}
      ensures deleted == old(deleted) +
                (if old(p.obj) != null && old(all.ring[all.id[p]]) == [p] then [old(p.obj)] else [])
    {
      Release(p);
    }

    /** The owners of one object are exactly the pointers of one ring. */
    lemma OwnersFormOneRing(p: Ptr, o: Object)
      requires Valid() && p in all.id && p.obj == o
      ensures all.id[p] in all.ring && forall q :: q in all.id && q.obj == o <==> q in all.ring[all.id[p]]
    {
      var k := all.id[p];
      forall q | q in all.id && q.obj == o ensures q in all.ring[k] {
        assert InPlace(p) && InPlace(q) && target[all.id[q]] == target[k];
      }
      forall q | q in all.ring[k] ensures q in all.id && q.obj == o {
        assert InPlace(p) && InPlace(q);
      }
    }

    /** What a live pointer owns has been adopted and not deleted. */
    lemma OwnedIsAlive(p: Ptr)
      requires Valid() && p in all.id && p.obj != null
      ensures p.obj in adopted && p.obj !in deleted
    {
      assert InPlace(p) && target[all.id[p]] in Owned(target);
    }

    /** An object that was adopted has been deleted exactly when no live pointer owns it. */
    lemma DeletedIffUnowned(o: Object)
      requires Valid() && o in adopted
      ensures o in deleted <==> forall q :: q in all.id ==> q.obj != o
    {
      if o in deleted {
        forall q | q in all.id ensures q.obj != o {
          assert InPlace(q);
        }
      } else {
        var k :| k in target && target[k] == o;
        assert all.ring[k][0] in all.id && InPlace(all.ring[k][0]);
      }
    }

    /** Puts a pointer that is in no ring behind `r`. */
    method Acquire(p: Ptr, r: Ptr)
      requires Valid() && r in all.id && p !in all.id
      modifies this`all, this`links, all.id.Keys, p
      ensures Valid() && all.id == old(all.id)[p := old(all.id)[r]] && p.obj == old(r.obj)
    {
      hide Accounts, Distinct, Linked, Formed, Spliced, InPlace;
      FormedFacts(all, links, r);
      ghost var t := AcquireKeeps(all, links, p, r);
      PutIn(p, r, Joined(all, all.id[r], t, p));
      FormedKeys(all, links);
    }

    /** Links `p` behind `r` and leaves the given rings. */
    method PutIn(p: Ptr, r: Ptr, ghost rest: Rings)
      requires Placed() && r in all.id && p !in all.id && rest.id == all.id[p := all.id[r]]
      requires links[r].next in all.id
      modifies this`all, this`links, all.id.Keys, p
      ensures Placed() && all == rest && links == Spliced(old(links), p, r) && p.obj == old(r.obj)
    {
      assert InPlace(r) && InPlace(links[r].next);
      Splice(p, r);
      all, links := rest, Spliced(links, p, r);
    }

    /** Takes a pointer out of its ring, deleting the object if it was the last owner. */
    method Release(p: Ptr)
      requires Valid() && p in all.id
      modifies this`all, this`links, this`target, this`deleted, all.id.Keys
      ensures Valid() && all.id == old(all.id) - {p} && p.obj == null
      ensures forall q :: q in all.id ==> q.obj == old(q.obj)
      ensures deleted == old(deleted) +
                (if old(p.obj) != null && old(all.ring[all.id[p]]) == [p] then [old(p.obj)] else [])
    {
      UniqueMeansAlone(all, links, p);
      if p.Unique() { ReleaseLast(p); } else { ReleaseShared(p); }
    }

    method ReleaseLast(p: Ptr)
      requires Valid() && p in all.id && all.ring[all.id[p]] == [p]
      modifies this`all, this`links, this`target, this`deleted, p
      ensures Valid() && all.id == old(all.id) - {p} && p.obj == null
      ensures forall q :: q in all.id ==> q.obj == old(q.obj)
      ensures deleted == old(deleted) + (if old(p.obj) != null then [old(p.obj)] else [])
    {
      hide Accounts, Distinct, Linked, Formed, InPlace;
      ghost var k := all.id[p];
      FormedFacts(all, links, p);
      DroppedOne(target, adopted, deleted, k);
      LastReleaseKeeps(all, links, p);
      TakeLast(p, Left(all, k, [], p));
      FormedKeys(all, links);
    }

    /** Deletes the object of a pointer that is alone in its ring, and leaves the given rings. */
    method TakeLast(p: Ptr, ghost rest: Rings)
      requires Placed() && p in all.id && rest.id == all.id - {p}
      requires forall q :: q in all.id && q != p ==> all.id[q] != all.id[p]
      modifies this`all, this`links, this`target, this`deleted, p
      ensures Placed() && all == rest && links == old(links) - {p} && target == old(target) - {old(all.id[p])}
      ensures p.obj == null && old(p.obj) == old(target[all.id[p]])
      ensures deleted == if old(p.obj) == null then old(deleted) else old(deleted) + [old(p.obj)]
    {
      assert InPlace(p);
      if p.obj != null { deleted := deleted + [p.obj]; }
      p.obj := null;
      target, links, all := target - {all.id[p]}, links - {p}, rest;
    }

    method ReleaseShared(p: Ptr)
      requires Valid() && p in all.id && all.ring[all.id[p]] != [p]
      modifies this`all, this`links, all.id.Keys
      ensures Valid() && all.id == old(all.id) - {p} && p.obj == null
      ensures forall q :: q in all.id ==> q.obj == old(q.obj)
    {
      hide Accounts, Distinct, Linked, Formed, Unlinked, InPlace;
      FormedFacts(all, links, p);
      ghost var t := ReleaseKeeps(all, links, p);
      TakeOut(p, Left(all, all.id[p], t, p));
    }

    /** Unlinks `p` from its neighbours and leaves the given rings. */
    method TakeOut(p: Ptr, ghost rest: Rings)
      requires Placed() && p in all.id && rest.id == all.id - {p}
      requires links[p].next in all.id && links[p].prev in all.id && links[p].next != p && links[p].prev != p
      modifies this`all, this`links, all.id.Keys
      ensures Placed() && all == rest && links == Unlinked(old(links), p) && p.obj == null
      ensures forall q :: q in all.id ==> q.obj == old(q.obj)
    {
      assert InPlace(p) && InPlace(links[p].next) && InPlace(links[p].prev);
      Unlink(p);
      all, links := rest, Unlinked(links, p);
    }
  }

  /** Any one construction, copy, assignment or destruction. */
  method AnyStep(w: World, live: set<Ptr>, made: set<Object>) returns (live': set<Ptr>, made': set<Object>)
    requires w.Valid() && live == w.all.id.Keys && made == w.adopted
    modifies w, live
    ensures w.Valid() && live' == w.all.id.Keys && made' == w.adopted
    ensures forall p :: p in live' ==> p in live || fresh(p)
  {
    hide Formed, Accounts, World.Placed;
    live', made' := live, made;
    var pick: int := *;
    if pick == 0 {
      var o := new Object({});
      var p := w.New(o);
      live', made' := live + {p}, made + {o};
    } else if pick == 1 {
      var p := w.New(null);
      live' := live + {p};
    } else if live != {} {
      var p, r :| p in live && r in live;
      match pick {
        case 2 =>
          var q := w.Copy(r);
          live' := live + {q};
        case 3 =>
          w.Assign(p, r);
        case _ =>
          w.Destroy(p);
          live' := live - {p};
      }
    }
  }

  /** Any run: no object is deleted twice, and of the objects ever handed to a linked_ptr those
      are deleted that no live pointer owns any more. */
  method AnyRun(steps: nat) returns (live: set<Ptr>, made: set<Object>, deleted: seq<Object>)
    ensures Distinct(deleted)
    ensures forall o :: o in made ==> (o in deleted <==> forall p :: p in live ==> p.obj != o)
  {
    var w := new World();
    live, made := {}, {};
    for i := 0 to steps
      invariant fresh(w) && w.Valid() && live == w.all.id.Keys && made == w.adopted
      invariant forall p :: p in live ==> fresh(p)
    {
      live, made := AnyStep(w, live, made);
    }
    deleted := w.deleted;
    forall o | o in made
      ensures o in deleted <==> forall p :: p in live ==> p.obj != o
    {
      w.DeletedIffUnowned(o);
    }
  }

  lemma NewPartition(a: Rings, k: nat, p: Ptr)
    requires Partition(a) && p !in a.id && k !in a.ring
    ensures Partition(Joined(a, k, [p], p))
  {
    var b := Joined(a, k, [p], p);
    forall q | q in b.id ensures b.id[q] in b.ring && q in b.ring[b.id[q]] {
      if q != p { PartitionFacts(a, q); }
    }
    forall j, q | j in b.ring && q in b.ring[j] ensures q in b.id && b.id[q] == j {
      if j != k { PartitionMember(a, j, q); }
    }
  }

  lemma NewKeeps(a: Rings, l: Links, k: nat, p: Ptr)
    requires Formed(a, l) && p !in a.id && k !in a.ring
    ensures Formed(Joined(a, k, [p], p), l[p := Link(p, p)])
  {
    hide Linked, Partition;
    var l' := l[p := Link(p, p)];
    NewPartition(a, k, p);
    OthersStay(a, l, l', k);
    SingletonLinked(l', p);
  }

  lemma SingletonLinked(l: Links, p: Ptr)
    requires p in l && l[p] == Link(p, p)
    ensures Linked(l, [p])
  {
  }

  lemma FormedKeys(a: Rings, l: Links)
    requires Formed(a, l)
    ensures l.Keys == a.id.Keys && forall p :: p in a.id ==> a.id[p] in a.ring
  {
  }

  lemma FormedFacts(a: Rings, l: Links, p: Ptr)
    requires Formed(a, l) && p in a.id
    ensures l.Keys == a.id.Keys && a.id[p] in a.ring && p in a.ring[a.id[p]]
    ensures l[p].next in a.id && l[p].prev in a.id
    ensures a.id[l[p].next] == a.id[p] == a.id[l[p].prev]
    ensures a.ring[a.id[p]] == [p] ==> forall q :: q in a.id && q != p ==> a.id[q] != a.id[p]
  {
    var s := Rotate(l, a.ring[a.id[p]], p);
    var n := |s|;
    assert Neighbours(l, s[n - 1], s[Next(n - 1, n)]);
    if n > 1 { assert Neighbours(l, s[n - 2], s[Next(n - 2, n)]); }
  }
}
