/** linked_ptrs that are members of the objects they own (src/talk/base/linked_ptr.h): deleting an
    object destroys its members, which may delete more objects. What goes, and when an assignment
    runs into memory that its own release has freed. */
module LinkedOwners {
  import opened LinkedPtrs

  // ----- What falls with a pointer, on values -----

  /** The live pointers with what they own, and the objects alive with their members. */
  datatype Graph = Graph(obj: map<Ptr, Object?>, inside: map<Object, set<Ptr>>)

  ghost predicate WellFormed(g: Graph) {
    && (forall o :: o in g.inside ==> g.inside[o] <= g.obj.Keys)
    && (forall o, u :: o in g.inside && u in g.inside && o != u ==> g.inside[o] !! g.inside[u])
    && (forall p :: p in g.obj && g.obj[p] != null ==> g.obj[p] in g.inside)
    && (forall o :: o in g.inside ==> exists x :: x in g.obj && g.obj[x] == o)
  }

  /** All owners of the object are in the given set. */
  ghost predicate OwnedWithin(g: Graph, s: set<Ptr>, o: Object) {
    forall x :: x in g.obj && g.obj[x] == o ==> x in s
  }

  /** With all owners of an object its members are in the set. */
  ghost predicate Closed(g: Graph, s: set<Ptr>) {
    forall o :: o in g.inside && OwnedWithin(g, s, o) ==> g.inside[o] <= s
  }

  /** q goes if p goes: it is in every set that holds p and is closed. */
  ghost predicate Doomed(g: Graph, p: Ptr, q: Ptr) {
    q in g.obj && forall s | s <= g.obj.Keys && p in s && Closed(g, s) :: q in s
  }

  /** p is a member of an object that goes if p goes. */
  ghost predicate InsideDoomed(g: Graph, p: Ptr) {
    exists o :: o in g.inside && p in g.inside[o] && AllDoomed(g, p, o)
  }

  ghost predicate AllDoomed(g: Graph, p: Ptr, o: Object) {
    forall x :: x in g.obj && g.obj[x] == o ==> Doomed(g, p, x)
  }

  /** How far the fall has come: the pointers gone besides p, those that must go next, and the
      objects deleted. */
  datatype Fall = Fall(gone: set<Ptr>, pending: set<Ptr>, dead: set<Object>)

  ghost predicate Falls(g: Graph, p: Ptr, f: Fall) {
    && p in g.obj && p !in f.gone && f.gone + f.pending <= g.obj.Keys && f.gone !! f.pending
    && f.dead <= g.inside.Keys
    && DeadAre(g, p, f) && MembersFall(g, f) && OnlyMembersFall(g, f) && OnlyDoomedFall(g, p, f)
  }

  /** The objects deleted are those of which all owners have gone. */
  ghost predicate DeadAre(g: Graph, p: Ptr, f: Fall) {
    forall o :: o in g.inside ==> (o in f.dead <==> OwnedWithin(g, f.gone + {p}, o))
  }

  /** The members of the objects deleted fall, and no others. */
  ghost predicate MembersFall(g: Graph, f: Fall) {
    && (forall o :: o in g.inside && o in f.dead ==> g.inside[o] <= f.gone + f.pending)
    && (forall o :: o in g.inside && o !in f.dead ==> g.inside[o] !! f.gone + f.pending)
  }

  ghost predicate OnlyMembersFall(g: Graph, f: Fall) {
    forall q :: q in f.gone + f.pending ==> exists o :: o in g.inside && o in f.dead && q in g.inside[o]
  }

  ghost predicate OnlyDoomedFall(g: Graph, p: Ptr, f: Fall) {
    forall s | s <= g.obj.Keys && p in s && Closed(g, s) :: f.gone + f.pending <= s
  }

  /** The object that is deleted when q goes after the others. */
  ghost predicate Deletes(g: Graph, p: Ptr, gone: set<Ptr>, q: Ptr)
    requires q in g.obj
  {
    g.obj[q] != null && OwnedWithin(g, gone + {p, q}, g.obj[q])
  }

  /** p itself is released. */
  ghost function Start(g: Graph, p: Ptr): Fall
    requires WellFormed(g) && p in g.obj
  {
    if Deletes(g, p, {}, p) then Fall({}, g.inside[g.obj[p]], {g.obj[p]}) else Fall({}, {}, {})
  }

  /** The next pointer goes. */
  ghost function GoOn(g: Graph, p: Ptr, f: Fall, q: Ptr): Fall
    requires WellFormed(g) && q in g.obj
  {
    if Deletes(g, p, f.gone, q) then
      Fall(f.gone + {q}, f.pending - {q} + g.inside[g.obj[q]], f.dead + {g.obj[q]})
    else
      Fall(f.gone + {q}, f.pending - {q}, f.dead)
  }

  lemma StartFalls(g: Graph, p: Ptr)
    requires WellFormed(g) && p in g.obj
    ensures Falls(g, p, Start(g, p))
  {
    var f := Start(g, p);
    forall o | o in g.inside ensures o in f.dead <==> OwnedWithin(g, f.gone + {p}, o) {
      var x :| x in g.obj && g.obj[x] == o;
      assert {} + {p, p} == {p} && {} + {p} == {p};
    }
    forall s | s <= g.obj.Keys && p in s && Closed(g, s) ensures f.gone + f.pending <= s {
      if f.dead != {} {
        assert OwnedWithin(g, s, g.obj[p]);
      }
    }
  }

  lemma FallGoesOn(g: Graph, p: Ptr, f: Fall, q: Ptr)
    requires WellFormed(g) && Falls(g, p, f) && q in f.pending && q != p
    ensures Falls(g, p, GoOn(g, p, f, q))
  {
    DeadGrows(g, p, f, q);
    NextMembersFall(g, p, f, q);
    NextOnlyMembersFall(g, p, f, q);
    NextAreDoomed(g, p, f, q);
    hide OwnedWithin, Closed, DeadAre, MembersFall, OnlyMembersFall, OnlyDoomedFall;
    if Deletes(g, p, f.gone, q) {
      assert g.inside[g.obj[q]] <= g.obj.Keys;
    }
  }

  lemma NextMembersFall(g: Graph, p: Ptr, f: Fall, q: Ptr)
    requires WellFormed(g) && Falls(g, p, f) && q in f.pending && q != p
    ensures var f' := GoOn(g, p, f, q); MembersFall(g, f') && f'.gone !! f'.pending && p !in f'.gone
  {
    DeadGrows(g, p, f, q);
    hide OwnedWithin, Closed, DeadAre, OnlyDoomedFall, OnlyMembersFall;
    var f' := GoOn(g, p, f, q);
    var more := if Deletes(g, p, f.gone, q) then g.inside[g.obj[q]] else {};
    assert f'.gone + f'.pending == f.gone + f.pending + more;
    hide Deletes;
  }

  lemma NextOnlyMembersFall(g: Graph, p: Ptr, f: Fall, q: Ptr)
    requires WellFormed(g) && Falls(g, p, f) && q in f.pending && q != p
    ensures OnlyMembersFall(g, GoOn(g, p, f, q))
  {
    hide OwnedWithin, Closed, DeadAre, OnlyDoomedFall, MembersFall;
    var f' := GoOn(g, p, f, q);
    forall x | x in f'.gone + f'.pending ensures exists o :: o in g.inside && o in f'.dead && x in g.inside[o] {
      if x in f.gone + f.pending {
        var o :| o in g.inside && o in f.dead && x in g.inside[o];
        assert o in f'.dead;
      } else {
        assert g.obj[q] in f'.dead;
      }
    }
  }

  lemma NextAreDoomed(g: Graph, p: Ptr, f: Fall, q: Ptr)
    requires WellFormed(g) && Falls(g, p, f) && q in f.pending && q != p
    ensures OnlyDoomedFall(g, p, GoOn(g, p, f, q))
  {
    hide DeadAre, MembersFall, OnlyMembersFall;
    var f' := GoOn(g, p, f, q);
    forall s | s <= g.obj.Keys && p in s && Closed(g, s) ensures f'.gone + f'.pending <= s {
      assert f.gone + f.pending <= s;
      if Deletes(g, p, f.gone, q) {
        assert OwnedWithin(g, s, g.obj[q]);
      }
    }
  }

  lemma DeadGrows(g: Graph, p: Ptr, f: Fall, q: Ptr)
    requires WellFormed(g) && Falls(g, p, f) && q in f.pending && q != p
    ensures Deletes(g, p, f.gone, q) ==> g.obj[q] !in f.dead
    ensures DeadAre(g, p, GoOn(g, p, f, q))
  {
    hide MembersFall, OnlyMembersFall, OnlyDoomedFall, Closed;
    var f' := GoOn(g, p, f, q);
    assert f.gone + {p, q} == f'.gone + {p};
    if Deletes(g, p, f.gone, q) {
      assert !OwnedWithin(g, f.gone + {p}, g.obj[q]);
    }
    forall o | o in g.inside ensures o in f'.dead <==> OwnedWithin(g, f'.gone + {p}, o) {
      if o in f.dead {
        assert OwnedWithin(g, f.gone + {p}, o);
      } else if o != g.obj[q] {
        var x :| x in g.obj && g.obj[x] == o && x !in f.gone + {p};
      }
    }
  }

  /** When nothing more must go, exactly the doomed have gone. */
  lemma Landed(g: Graph, p: Ptr, f: Fall)
    requires WellFormed(g) && Falls(g, p, f) && f.pending == {}
    ensures forall q :: q != p ==> (q in f.gone <==> Doomed(g, p, q))
    ensures !InsideDoomed(g, p)
  {
    var s := f.gone + {p};
    assert Closed(g, s);
    forall q | q != p ensures q in f.gone <==> Doomed(g, p, q) {
    }
    if o :| o in g.inside && p in g.inside[o] && AllDoomed(g, p, o) {
      assert OwnedWithin(g, s, o);
    }
  }

  /** A fall that comes back to p has deleted the object of which p is a member. */
  lemma ComesBack(g: Graph, p: Ptr, f: Fall)
    requires WellFormed(g) && Falls(g, p, f) && p in f.pending
    ensures InsideDoomed(g, p)
  {
    var o :| o in f.dead && p in g.inside[o];
    forall x | x in g.obj && g.obj[x] == o ensures Doomed(g, p, x) {
    }
  }

  // ----- The fall in the world of live pointers -----

  /** Between operations: the members of objects alive are live, those of deleted ones are not, and
      no pointer is a member of two objects. */
  ghost predicate Settled(adopted: set<Object>, deleted: seq<Object>, live: set<Ptr>) {
    && (forall o :: o in adopted && o !in deleted ==> o.members <= live)
    && (forall o :: o in adopted && o in deleted ==> o.members !! live)
    && (forall o, u :: o in adopted && u in adopted && o != u ==> o.members !! u.members)
  }

  ghost predicate AtRest(w: World)
    reads w, w.all.id.Keys
  {
    w.Valid() && Settled(w.adopted, w.deleted, w.all.id.Keys)
  }

  /** None of the pointers is a member of an object. */
  ghost predicate NoMembers(adopted: set<Object>, s: set<Ptr>) {
    forall o :: o in adopted ==> o.members !! s
  }

  lemma SettledWithMore(adopted: set<Object>, deleted: seq<Object>, live: set<Ptr>, p: Ptr)
    requires Settled(adopted, deleted, live) && NoMembers(adopted, {p})
    ensures Settled(adopted, deleted, live + {p})
  {
  }

  lemma SettledWithObject(adopted: set<Object>, deleted: seq<Object>, live: set<Ptr>, o: Object, p: Ptr)
    requires Settled(adopted, deleted, live) && NoMembers(adopted, {p}) && p !in o.members
    requires o !in adopted && o !in deleted && o.members <= live && NoMembers(adopted, o.members)
    ensures Settled(adopted + {o}, deleted, live + {p})
  {
  }

  ghost function GraphOf(w: World): Graph
    reads w, w.all.id.Keys
  {
    Graph(map p | p in w.all.id :: p.obj, map o | o in w.adopted && o !in w.deleted :: o.members)
  }

  lemma GraphIsWellFormed(w: World)
    requires AtRest(w)
    ensures WellFormed(GraphOf(w))
  {
    var g := GraphOf(w);
    hide World.Valid;
    forall p | p in g.obj && g.obj[p] != null ensures g.obj[p] in g.inside {
      w.OwnedIsAlive(p);
    }
    forall o | o in g.inside ensures exists x :: x in g.obj && g.obj[x] == o {
      w.DeletedIffUnowned(o);
      var x :| x in w.all.id && x.obj == o;
      assert x in g.obj;
    }
  }

  /** The world as far as p and what falls with it have gone. */
  ghost predicate Tracks(w: World, g: Graph, p: Ptr, f: Fall)
    reads w, w.all.id.Keys
  {
    && w.Valid() && w.all.id.Keys == g.obj.Keys - {p} - f.gone
    && (forall q :: q in w.all.id ==> q in g.obj && q.obj == g.obj[q])
    && Inside(w.adopted, g, f, w.deleted)
  }

  /** Of the objects of the graph those are deleted that have fallen, and of the others all. */
  ghost predicate Inside(adopted: set<Object>, g: Graph, f: Fall, deleted: seq<Object>) {
    && g.inside.Keys <= adopted
    && (forall o :: o in g.inside ==> g.inside[o] == o.members && (o in deleted <==> o in f.dead))
    && (forall o :: o in adopted && o !in g.inside ==> o in deleted && o.members !! g.obj.Keys)
  }

  /** Releases a pointer, and says which others must go next. */
  method ReleaseOne(w: World, q: Ptr) returns (next: set<Ptr>)
    requires w.Valid() && q in w.all.id
    modifies w`all, w`links, w`target, w`deleted, w.all.id.Keys
    ensures w.Valid() && w.all.id == old(w.all.id) - {q} && q.obj == null
    ensures forall x :: x in w.all.id ==> x.obj == old(x.obj)
    ensures var o := old(q.obj);
            if o != null && forall x :: x in w.all.id ==> x.obj != o
            then w.deleted == old(w.deleted) + [o] && o !in old(w.deleted) && next == o.members
            else w.deleted == old(w.deleted) && next == {}
  {
    hide World.Valid;
    var n := |w.deleted|;
    ghost var o := q.obj;
    if o != null { w.OwnedIsAlive(q); }
    w.Release(q);
    if o != null { w.DeletedIffUnowned(o); }
    next := if |w.deleted| > n then w.deleted[n].members else {};
  }

  /** The world that a release leaves follows the fall. */
  lemma StepTracks(w: World, g: Graph, p: Ptr, f: Fall, q: Ptr, before: seq<Object>)
    requires WellFormed(g) && q in g.obj && w.Valid()
    requires w.all.id.Keys == g.obj.Keys - {p} - f.gone - {q}
    requires forall x :: x in w.all.id ==> x in g.obj && x.obj == g.obj[x]
    requires Inside(w.adopted, g, f, before)
    requires w.deleted == before + (if Deletes(g, p, f.gone, q) then [g.obj[q]] else [])
    ensures Tracks(w, g, p, GoOn(g, p, f, q))
  {
    hide World.Valid, WellFormed;
    assert w.all.id.Keys == g.obj.Keys - {p} - (f.gone + {q});
  }

  lemma NoOwnerLeft(w: World, g: Graph, s: set<Ptr>, o: Object)
    requires w.all.id.Keys == g.obj.Keys - s && forall q :: q in w.all.id ==> q in g.obj && q.obj == g.obj[q]
    ensures OwnedWithin(g, s, o) <==> forall x :: x in w.all.id ==> x.obj != o
  {
    if !OwnedWithin(g, s, o) {
      var x :| x in g.obj && g.obj[x] == o && x !in s;
      assert x in w.all.id;
    }
  }

  /** Releases p, and then whatever falls with it, in any order. The fall may come back to p itself,
      while its release is still under way. */
  method Drop(w: World, p: Ptr, ghost g: Graph) returns (back: bool, gone: set<Ptr>, ghost f: Fall)
    requires AtRest(w) && p in w.all.id && g == GraphOf(w)
    modifies w`all, w`links, w`target, w`deleted, w.all.id.Keys
    ensures back <==> InsideDoomed(g, p)
    ensures !back ==> Tracks(w, g, p, f) && Falls(g, p, f) && f.pending == {} && f.gone == gone && p.obj == null
    ensures !back ==> forall q :: q != p ==> (q in gone <==> Doomed(g, p, q))
  {
    hide World.Valid, Falls, WellFormed, Doomed, InsideDoomed, AtRest, Tracks;
    GraphIsWellFormed(w);
    StartFalls(g, p);
    var pending := Begin(w, p, g);
    f := Start(g, p);
    gone := {};
    while pending != {}
      invariant Tracks(w, g, p, f) && Falls(g, p, f) && pending == f.pending && gone == f.gone && p.obj == null
      invariant w.all.id.Keys <= old(w.all.id.Keys) && p !in w.all.id
      decreases |w.all.id|
    {
      var q :| q in pending;
      if q == p {
        ComesBack(g, p, f);
        back := true;
        return;
      }
      PendingIsLive(w, g, p, f, q);
      var next := Next(w, p, g, f, q);
      FallGoesOn(g, p, f, q);
      pending, gone, f := pending - {q} + next, gone + {q}, GoOn(g, p, f, q);
    }
    Landed(g, p, f);
    back := false;
  }

  lemma PendingIsLive(w: World, g: Graph, p: Ptr, f: Fall, q: Ptr)
    requires Tracks(w, g, p, f) && Falls(g, p, f) && q in f.pending && q != p
    ensures q in w.all.id && q in g.obj && q.obj == g.obj[q]
  {
  }

  method Begin(w: World, p: Ptr, ghost g: Graph) returns (next: set<Ptr>)
    requires AtRest(w) && p in w.all.id && g == GraphOf(w) && WellFormed(g)
    modifies w`all, w`links, w`target, w`deleted, w.all.id.Keys
    ensures Tracks(w, g, p, Start(g, p)) && next == Start(g, p).pending && p.obj == null
    ensures w.all.id.Keys <= old(w.all.id.Keys) && p !in w.all.id
  {
    hide World.Valid;
    next := ReleaseOne(w, p);
    assert w.all.id.Keys == g.obj.Keys - {p} - {};
    if g.obj[p] != null {
      NoOwnerLeft(w, g, {} + {p, p}, g.obj[p]);
    }
  }

  method Next(w: World, p: Ptr, ghost g: Graph, ghost f: Fall, q: Ptr) returns (next: set<Ptr>)
    requires Tracks(w, g, p, f) && WellFormed(g) && q in w.all.id && q in g.obj && q.obj == g.obj[q]
    modifies w`all, w`links, w`target, w`deleted, w.all.id.Keys
    ensures Tracks(w, g, p, GoOn(g, p, f, q))
    ensures next == if Deletes(g, p, f.gone, q) then g.inside[g.obj[q]] else {}
    ensures w.all.id.Keys <= old(w.all.id.Keys) && |w.all.id| < |old(w.all.id)|
  {
    hide World.Valid, OwnedWithin, Inside, WellFormed;
    ghost var (before, deleted, o) := (w.all.id.Keys, w.deleted, q.obj);
    next := ReleaseOne(w, q);
    assert before == w.all.id.Keys + {q};
    assert w.all.id.Keys == g.obj.Keys - (f.gone + {p, q}) == g.obj.Keys - {p} - f.gone - {q};
    if o != null {
      NoOwnerLeft(w, g, f.gone + {p, q}, o);
      MembersOf(w.adopted, g, f, deleted, q);
    }
    assert Deletes(g, p, f.gone, q) <==> o != null && forall x :: x in w.all.id ==> x.obj != o;
    StepTracks(w, g, p, f, q, deleted);
  }

  lemma MembersOf(adopted: set<Object>, g: Graph, f: Fall, deleted: seq<Object>, q: Ptr)
    requires WellFormed(g) && Inside(adopted, g, f, deleted) && q in g.obj && g.obj[q] != null
    ensures g.obj[q] in g.inside && g.inside[g.obj[q]] == g.obj[q].members
  {
  }

  // ----- The operations -----

  /** What a fall that is over leaves is at rest, once p is where it belongs. */
  lemma FallIsOver(w: World, g: Graph, p: Ptr, f: Fall, adopted: set<Object>, deleted: seq<Object>)
    requires WellFormed(g) && Falls(g, p, f) && f.pending == {} && Inside(adopted, g, f, deleted)
    requires w.Valid() && w.adopted == adopted && w.deleted == deleted
    requires w.all.id.Keys == g.obj.Keys - f.gone
             || (w.all.id.Keys == g.obj.Keys - {p} - f.gone && forall o :: o in g.inside ==> p !in g.inside[o])
    requires forall o, u :: o in adopted && u in adopted && o != u ==> o.members !! u.members
    ensures AtRest(w)
  {
    hide World.Valid, OwnedWithin, Closed, DeadAre, OnlyMembersFall, OnlyDoomedFall;
  }

  /** `operator=`. It runs into freed memory exactly if r is destroyed by the release of p, or p is
      a member of an object that is. Otherwise exactly what falls with p is destroyed. */
  method Assign(w: World, p: Ptr, r: Ptr, ghost g: Graph) returns (safe: bool, gone: set<Ptr>)
    requires AtRest(w) && p in w.all.id && r in w.all.id && g == GraphOf(w)
    modifies w`all, w`links, w`target, w`deleted, w.all.id.Keys
    ensures safe <==> p == r || (!InsideDoomed(g, p) && !Doomed(g, p, r))
    ensures safe ==> AtRest(w) && p.obj == g.obj[r] && w.all.id.Keys == g.obj.Keys - gone
    ensures safe && p != r ==> forall q :: q in gone <==> q != p && Doomed(g, p, q)
    ensures safe && p == r ==> gone == {}
  {
    gone := {};
    if p == r { return true, {}; }
    hide World.Valid, WellFormed, Doomed, InsideDoomed, Inside, DeadAre, MembersFall, OnlyMembersFall, OnlyDoomedFall;
    GraphIsWellFormed(w);
    var back;
    ghost var f;
    back, gone, f := Drop(w, p, g);
    if back || r in gone { return false, gone; }
    hide Settled;
    Rejoin(w, p, r, g, f);
    return true, gone;
  }

  /** p goes into the ring of r, once the fall is over. */
  method Rejoin(w: World, p: Ptr, r: Ptr, ghost g: Graph, ghost f: Fall)
    requires WellFormed(g) && Tracks(w, g, p, f) && Falls(g, p, f) && f.pending == {}
    requires p in g.obj && p !in f.gone && r in g.obj && r != p && r !in f.gone
    requires forall o, u :: o in w.adopted && u in w.adopted && o != u ==> o.members !! u.members
    modifies w`all, w`links, w.all.id.Keys, p
    ensures AtRest(w) && p.obj == g.obj[r] && w.all.id.Keys == g.obj.Keys - f.gone
  {
    hide World.Valid, Falls, WellFormed, Inside;
    assert r in w.all.id && p !in w.all.id;
    w.Acquire(p, r);
    assert w.all.id.Keys == g.obj.Keys - f.gone;
    FallIsOver(w, g, p, f, w.adopted, w.deleted);
  }

  /** The destructor of a pointer that is not a member. */
  method Destroy(w: World, p: Ptr, ghost g: Graph) returns (gone: set<Ptr>)
    requires AtRest(w) && p in w.all.id && g == GraphOf(w) && NoMembers(w.adopted, {p})
    modifies w`all, w`links, w`target, w`deleted, w.all.id.Keys
    ensures AtRest(w) && w.all.id.Keys == g.obj.Keys - {p} - gone
    ensures forall q :: q != p ==> (q in gone <==> Doomed(g, p, q))
  {
    hide World.Valid, Falls, WellFormed, Doomed, Inside;
    GraphIsWellFormed(w);
    var back;
    ghost var f;
    back, gone, f := Drop(w, p, g);
    FallIsOver(w, g, p, f, w.adopted, w.deleted);
  }

  /** A member of the object that only p owns goes with p. */
  lemma MemberIsDoomed(g: Graph, p: Ptr, a: Ptr)
    requires WellFormed(g) && p in g.obj && g.obj[p] != null
    requires OwnedWithin(g, {p}, g.obj[p]) && a in g.inside[g.obj[p]]
    ensures Doomed(g, p, a)
  {
    forall s | s <= g.obj.Keys && p in s && Closed(g, s) ensures a in s {
      assert OwnedWithin(g, s, g.obj[p]);
    }
  }

  /** A pointer to nothing, which is not a member of anything yet. */
  method Plain(w: World) returns (p: Ptr)
    requires AtRest(w)
    modifies w
    ensures AtRest(w) && fresh(p) && p.obj == null && w.all.id.Keys == old(w.all.id.Keys) + {p}
    ensures w.adopted == old(w.adopted) && w.deleted == old(w.deleted) && NoMembers(w.adopted, {p})
  {
    hide World.Valid, Settled;
    p := w.New(null);
    assert w.adopted == old(w.adopted);
    SettledWithMore(w.adopted, w.deleted, old(w.all.id.Keys), p);
  }

  /** `linked_ptr p(new X)`, where X has the given pointers as members. */
  method Make(w: World, members: set<Ptr>) returns (p: Ptr, o: Object)
    requires AtRest(w) && members <= w.all.id.Keys && NoMembers(w.adopted, members)
    modifies w
    ensures AtRest(w) && fresh(p) && fresh(o) && p.obj == o && o.members == members
    ensures w.all.id.Keys == old(w.all.id.Keys) + {p}
    ensures w.adopted == old(w.adopted) + {o} && w.deleted == old(w.deleted) && NoMembers(w.adopted, {p})
  {
    hide World.Valid, Settled;
    o := new Object(members);
    p := w.New(o);
    SettledWithObject(old(w.adopted), w.deleted, old(w.all.id.Keys), o, p);
  }

  method Copy(w: World, r: Ptr) returns (p: Ptr)
    requires AtRest(w) && r in w.all.id
    modifies w`all, w`links, w.all.id.Keys
    ensures AtRest(w) && fresh(p) && p.obj == old(r.obj) && w.all.id.Keys == old(w.all.id.Keys) + {p}
    ensures NoMembers(w.adopted, {p})
  {
    hide World.Valid, Settled;
    p := w.Copy(r);
    SettledWithMore(w.adopted, w.deleted, old(w.all.id.Keys), p);
    assert w.all.id.Keys == old(w.all.id.Keys) + {p};
  }

  /** Assigning to a pointer a member of the object that only it owns, as a walk along a list may
      do: the member is destroyed before it is read. */
  method AssignOwnMember() returns (safe: bool)
    ensures !safe
  {
    hide World.Valid, WellFormed, Doomed, InsideDoomed, Settled, Closed, NoMembers, GraphOf, OwnedWithin;
    var w := new World();
    NothingSettled();
    assert w.all.id.Keys == {};
    var a := Plain(w);
    var p, o := Make(w, {a});
    GraphIsWellFormed(w);
    OnlyOwner(w, p, a, o);
    MemberIsDoomed(GraphOf(w), p, a);
    var gone;
    safe, gone := Assign(w, p, a, GraphOf(w));
  }

  lemma NothingSettled()
    ensures Settled({}, [], {})
  {
  }

  lemma OnlyOwner(w: World, p: Ptr, a: Ptr, o: Object)
    requires w.all.id.Keys == {a, p} && p.obj == o && a.obj == null && a != p
    requires o in w.adopted && o !in w.deleted && o.members == {a}
    ensures var g := GraphOf(w);
            p in g.obj && g.obj[p] == o && OwnedWithin(g, {p}, o) && o in g.inside && g.inside[o] == {a}
  {
  }

  lemma GraphKeys(w: World)
    ensures GraphOf(w).obj.Keys == w.all.id.Keys
  {
  }

  /** Any run of constructions, with members or without, copies, assignments between any pointers,
      members or not, and destructions, up to the first assignment that runs into freed memory: no
      object is deleted twice, and those deleted are those that no live pointer owns. */
  method AnyRun(steps: nat) returns (w: World, safe: bool)
    ensures safe ==> AtRest(w) && Distinct(w.deleted)
    ensures safe ==> forall o :: o in w.adopted ==> (o in w.deleted <==> forall p :: p in w.all.id ==> p.obj != o)
  {
    w := new World();
    safe := true;
    var live: set<Ptr>, plain: set<Ptr> := {}, {};
    for i := 0 to steps
      invariant fresh(w) && AtRest(w) && live == w.all.id.Keys && plain <= live && fresh(live)
      invariant NoMembers(w.adopted, plain)
    {
      hide World.Valid, Settled, NoMembers;
      safe, live, plain := AnyStep(w, live, plain);
      if !safe { return; }
    }
    forall o | o in w.adopted
      ensures o in w.deleted <==> forall p :: p in w.all.id ==> p.obj != o
    {
      w.DeletedIffUnowned(o);
    }
  }

  method AnyStep(w: World, live: set<Ptr>, plain: set<Ptr>)
    returns (safe: bool, live': set<Ptr>, plain': set<Ptr>)
    requires AtRest(w) && live == w.all.id.Keys && plain <= live && NoMembers(w.adopted, plain)
    modifies w, live
    ensures safe ==> AtRest(w) && live' == w.all.id.Keys && plain' <= live' && NoMembers(w.adopted, plain')
    ensures safe ==> forall p :: p in live' ==> p in live || fresh(p)
  {
    hide World.Valid, Settled, NoMembers;
    safe, live', plain' := true, live, plain;
    var pick: int := *;
    if pick == 0 && live != {} {
      var p, r :| p in live && r in live;
      safe, live', plain' := AssignStep(w, live, plain, p, r);
    } else if pick == 1 && plain != {} {
      var p :| p in plain;
      live', plain' := DestroyStep(w, live, plain, p);
    } else {
      live', plain' := NewStep(w, live, plain);
    }
  }

  method AssignStep(w: World, live: set<Ptr>, plain: set<Ptr>, p: Ptr, r: Ptr)
    returns (safe: bool, live': set<Ptr>, plain': set<Ptr>)
    requires AtRest(w) && live == w.all.id.Keys && plain <= live && NoMembers(w.adopted, plain)
    requires p in live && r in live
    modifies w`all, w`links, w`target, w`deleted, live
    ensures safe ==> AtRest(w) && live' == w.all.id.Keys && plain' <= live' && NoMembers(w.adopted, plain')
    ensures live' <= live
  {
    hide World.Valid, Doomed, InsideDoomed, Settled, GraphOf;
    GraphKeys(w);
    var gone;
    safe, gone := Assign(w, p, r, GraphOf(w));
    live', plain' := live - gone, plain - gone;
  }

  method DestroyStep(w: World, live: set<Ptr>, plain: set<Ptr>, p: Ptr)
    returns (live': set<Ptr>, plain': set<Ptr>)
    requires AtRest(w) && live == w.all.id.Keys && plain <= live && NoMembers(w.adopted, plain) && p in plain
    modifies w`all, w`links, w`target, w`deleted, live
    ensures AtRest(w) && live' == w.all.id.Keys && plain' <= live' && NoMembers(w.adopted, plain')
    ensures live' <= live
  {
    hide World.Valid, Doomed, InsideDoomed, Settled, GraphOf;
    GraphKeys(w);
    assert NoMembers(w.adopted, {p});
    var gone := Destroy(w, p, GraphOf(w));
    live', plain' := live - {p} - gone, plain - {p} - gone;
  }

  method NewStep(w: World, live: set<Ptr>, plain: set<Ptr>) returns (live': set<Ptr>, plain': set<Ptr>)
    requires AtRest(w) && live == w.all.id.Keys && plain <= live && NoMembers(w.adopted, plain)
    modifies w, live
    ensures AtRest(w) && live' == w.all.id.Keys && plain' <= live' && NoMembers(w.adopted, plain')
    ensures forall p :: p in live' ==> p in live || fresh(p)
  {
    hide World.Valid, Settled, NoMembers;
    var pick: int := *;
    if pick == 0 {
      var q := Plain(w);
      NeitherAreMembers(w.adopted, plain, q);
      return live + {q}, plain + {q};
    }
    if pick == 1 && live != {} {
      var r :| r in live;
      var q := Copy(w, r);
      NeitherAreMembers(w.adopted, plain, q);
      return live + {q}, plain + {q};
    }
    var members: set<Ptr> :| members <= plain;
    FewerAreMembers(w.adopted, plain, members);
    var q, o := Make(w, members);
    StillNoMembers(old(w.adopted), plain, o, q);
    return live + {q}, plain - members + {q};
  }

  lemma FewerAreMembers(adopted: set<Object>, s: set<Ptr>, t: set<Ptr>)
    requires NoMembers(adopted, s) && t <= s
    ensures NoMembers(adopted, t)
  {
  }

  lemma NeitherAreMembers(adopted: set<Object>, s: set<Ptr>, q: Ptr)
    requires NoMembers(adopted, s) && NoMembers(adopted, {q})
    ensures NoMembers(adopted, s + {q})
  {
  }

  lemma StillNoMembers(adopted: set<Object>, plain: set<Ptr>, o: Object, q: Ptr)
    requires NoMembers(adopted, plain) && NoMembers(adopted + {o}, {q})
    ensures NoMembers(adopted + {o}, plain - o.members + {q})
  {
  }
}
