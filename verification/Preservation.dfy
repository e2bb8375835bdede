/** Every operation keeps the invariant. */
module Preservation {
  import opened Wrappers
  import opened Forest
  import opened Authority
  import Theory
  import opened Operations

  // ── hanging a leaf ─────────────────────────────────────────────────────────

  /** `x` can be hung under `p`: `x` is empty or absent, `p` is an occupied CSpace slot. */
  ghost predicate CanAttach(m: Slots, x: SlotId, p: SlotId) {
    && Tree(m) && Occupied(m, p) && !p.MapCap? && x != p
    && (x in m ==> m[x].obj.None?)
  }

  lemma AttachParents(m: Slots, x: SlotId, o: nat, rights: Rights, badge: int, p: SlotId)
    requires CanAttach(m, x, p)
    ensures ParentsOf(Theory.Attach(m, x, o, rights, badge, p)) == ParentsOf(m)[x := p]
    ensures x !in ParentsOf(m) && x !in ParentsOf(m).Values
  {
    forall c ensures !ChildOf(m, c, x) { assert !Lists(m, x, c); }
    if x in ParentsOf(m).Values {
      var c :| c in ParentsOf(m) && ParentsOf(m)[c] == x;
      assert ChildOf(m, c, x);
    }
  }

  lemma AttachTree(m: Slots, x: SlotId, o: nat, rights: Rights, badge: int, p: SlotId)
    requires CanAttach(m, x, p)
    ensures Tree(Theory.Attach(m, x, o, rights, badge, p))
  {
    var r := Theory.Attach(m, x, o, rights, badge, p);
    AttachParents(m, x, o, rights, badge, p);
    forall a ensures !Anc(ParentsOf(r), a, a) {
      LeafAnc(ParentsOf(m), x, p, a, a);
      if Anc(ParentsOf(m), x, p) { AncIsParent(ParentsOf(m), x, p); }
    }
    forall s, q ensures ChildOf(r, s, q) <==> Lists(r, q, s) {
      assert ChildOf(m, s, q) <==> Lists(m, q, s);
    }
    assert !ChildOf(m, x, p);
    NoDupSnoc(m[p].children, x);
  }

  lemma AttachEdges(m: Slots, objs: Objects, x: SlotId, o: nat, rights: Rights, badge: int, p: SlotId)
    requires CanAttach(m, x, p) && Edges(m, objs)
    requires EdgeOK(Slot(Some(o), rights, badge, Some(p), []), m[p], objs)
    ensures Edges(Theory.Attach(m, x, o, rights, badge, p), objs)
  {
    var r := Theory.Attach(m, x, o, rights, badge, p);
    forall s, q | ChildOf(r, s, q) && q in r ensures EdgeOK(r[s], r[q], objs) {
      if s != x {
        assert ChildOf(m, s, q) && Lists(m, q, s);
      }
    }
  }

  // ── deleting ───────────────────────────────────────────────────────────────

  lemma NoSelfParent(m: Slots, i: SlotId)
    requires Tree(m)
    ensures !ChildOf(m, i, i)
    ensures forall p :: ChildOf(m, i, p) ==> !ChildOf(m, p, i)
  {
    AncUnfold(ParentsOf(m), i, i);
    forall p | ChildOf(m, i, p) && ChildOf(m, p, i) ensures false { AncUnfold(ParentsOf(m), i, p); }
  }

  lemma DeleteParents(m: Slots, i: SlotId)
    requires Tree(m) && i in m
    ensures ParentsOf(Theory.Delete(m, i)) == Splice(ParentsOf(m), i)
    ensures i !in ParentsOf(m) || ParentsOf(m)[i] != i
  {
    NoSelfParent(m, i);
    var r := Theory.Delete(m, i);
    forall s | s in m && s != i
      ensures r[s].parent == if m[s].parent == Some(i) then m[i].parent else m[s].parent
    {
      assert ChildOf(m, s, i) <==> Lists(m, i, s);
    }
  }

  lemma DeleteTree(m: Slots, i: SlotId)
    requires Tree(m) && i in m
    ensures Tree(Theory.Delete(m, i))
  {
    var r := Theory.Delete(m, i);
    DeleteParents(m, i);
    forall a ensures !Anc(ParentsOf(r), a, a) { SpliceAnc(ParentsOf(m), i, a, a); }
    DeleteLists(m, i);
    NoSelfParent(m, i);
    forall s, q ensures ChildOf(r, s, q) <==> Lists(r, q, s) {
      assert ChildOf(m, s, q) <==> Lists(m, q, s);
      assert ChildOf(m, s, i) <==> Lists(m, i, s);
      assert ChildOf(m, i, q) <==> Lists(m, q, i);
    }
  }

  /** The child lists after a delete. */
  lemma DeleteLists(m: Slots, i: SlotId)
    requires Tree(m) && i in m
    ensures Tidy(Theory.Delete(m, i))
    ensures forall q, s :: q != i ==>
              (Lists(Theory.Delete(m, i), q, s) <==>
               s != i && (Lists(m, q, s) || (m[i].parent == Some(q) && Lists(m, i, s))))
  {
    var r := Theory.Delete(m, i);
    NoSelfParent(m, i);
    if m[i].parent.Some? {
      var p := m[i].parent.value;
      assert ChildOf(m, i, p) && Lists(m, p, i);
      forall x | x in Theory.Without(m[p].children, i) ensures x !in m[i].children {
        assert Lists(m, p, x) && ChildOf(m, x, p);
        assert ChildOf(m, x, i) <==> Lists(m, i, x);
      }
      NoDupJoin(Theory.Without(m[p].children, i), m[i].children);
    }
    forall q, s | q != i
      ensures Lists(r, q, s) <==> s != i && (Lists(m, q, s) || (m[i].parent == Some(q) && Lists(m, i, s)))
    {
      assert ChildOf(m, i, q) <==> Lists(m, q, i);
      assert ChildOf(m, q, i) <==> Lists(m, i, q);
      assert ChildOf(m, i, i) <==> Lists(m, i, i);
    }
    forall s | s in r && s.MapCap? ensures r[s].children == [] {
      assert ChildOf(m, i, s) <==> Lists(m, s, i);
    }
    forall s | s in r && r[s].obj.None? ensures r[s] == EMPTY {
      assert ChildOf(m, s, i) <==> Lists(m, i, s);
      assert ChildOf(m, i, s) <==> Lists(m, s, i);
    }
  }

  lemma NoDupJoin<T>(s: seq<T>, t: seq<T>)
    requires NoDup(s) && NoDup(t) && forall x :: x in s ==> x !in t
    ensures NoDup(s + t)
  {
    var u := s + t;
    forall i, j | 0 <= i < j < |u| ensures u[i] != u[j] {
      if i < |s| <= j { assert u[i] in s && u[j] in t; }
    }
  }

  lemma DeleteEdges(m: Slots, objs: Objects, i: SlotId)
    requires Tree(m) && i in m && Edges(m, objs)
    ensures Edges(Theory.Delete(m, i), objs)
  {
    var r := Theory.Delete(m, i);
    forall s, q | ChildOf(r, s, q) && q in r ensures EdgeOK(r[s], r[q], objs) {
      assert ChildOf(m, s, i) <==> Lists(m, i, s);
      assert ChildOf(m, s, q) <==> Lists(m, q, s);
      assert ChildOf(m, i, q) <==> Lists(m, q, i);
      NoSelfParent(m, i);
      if ChildOf(m, s, i) {
        assert EdgeOK(m[s], m[i], objs) && EdgeOK(m[i], m[q], objs);
      }
    }
  }

  // ── revoking ───────────────────────────────────────────────────────────────

  lemma RevokeParents(m: Slots, i: SlotId)
    requires Tree(m)
    ensures ParentsOf(Theory.Revoke(m, i)) == ParentsOf(m) - Desc(ParentsOf(m), i)
    ensures forall x :: x in ParentsOf(m) && ParentsOf(m)[x] in Desc(ParentsOf(m), i) ==> x in Desc(ParentsOf(m), i)
  {
    var p := ParentsOf(m);
    forall x | x in p && p[x] in Desc(p, i) ensures x in Desc(p, i) { AncOfChild(p, i, x); }
    forall x | Anc(p, i, x) ensures x in p { AncUnfold(p, i, x); }
  }

  lemma RevokeTree(m: Slots, i: SlotId)
    requires Tree(m) && i in m
    ensures Tree(Theory.Revoke(m, i))
  {
    var p := ParentsOf(m);
    var r := Theory.Revoke(m, i);
    RevokeParents(m, i);
    forall a ensures !Anc(ParentsOf(r), a, a) { PruneAnc(p, Desc(p, i), a, a); }
    forall s, q ensures ChildOf(r, s, q) <==> Lists(r, q, s) {
      assert ChildOf(m, s, q) <==> Lists(m, q, s);
      AncUnfold(p, i, s);
    }
  }

  lemma RevokeEdges(m: Slots, objs: Objects, i: SlotId)
    requires Tree(m) && i in m && Edges(m, objs)
    ensures Edges(Theory.Revoke(m, i), objs)
  {
    var p := ParentsOf(m);
    var r := Theory.Revoke(m, i);
    forall s, q | ChildOf(r, s, q) && q in r ensures EdgeOK(r[s], r[q], objs) {
      AncUnfold(p, i, s);
      assert ChildOf(m, s, q);
    }
  }

  // ── renaming ───────────────────────────────────────────────────────────────

  /** A permutation of CSpace slots that all exist. */
  ghost predicate Relocates(m: Slots, pi: Perm) {
    pi.Valid() && forall x :: pi.Moves(x) ==> x in m && !x.MapCap?
  }

  lemma ConjugateAt(m: Slots, pi: Perm, x: SlotId)
    requires Relocates(m, pi)
    ensures x in m <==> pi.To(x) in m
    ensures pi.To(x) in Theory.Conjugate(m, pi) <==> x in m
    ensures x in m ==> Theory.Conjugate(m, pi)[pi.To(x)] == Theory.RenameLinks(pi, m[x])
  {
    PermInverse(pi, x);
  }

  lemma ConjugateKeys(m: Slots, pi: Perm)
    requires Relocates(m, pi)
    ensures Theory.Conjugate(m, pi).Keys == m.Keys
  {
    forall t ensures t in Theory.Conjugate(m, pi) <==> t in m {
      PermInverse(pi, t);
      ConjugateAt(m, pi, pi.From(t));
    }
  }

  lemma RenameAllIn(pi: Perm, s: seq<SlotId>, x: SlotId)
    requires pi.Valid()
    ensures pi.To(x) in Theory.RenameAll(pi, s) <==> x in s
  {
    var r := Theory.RenameAll(pi, s);
    if x in s {
      var i :| 0 <= i < |s| && s[i] == x;
      assert r[i] == pi.To(x);
    }
    if pi.To(x) in r {
      var i :| 0 <= i < |s| && r[i] == pi.To(x);
      PermInverse(pi, s[i]);
      PermInverse(pi, x);
    }
  }

  lemma RenameAllNoDup(pi: Perm, s: seq<SlotId>)
    requires pi.Valid() && NoDup(s)
    ensures NoDup(Theory.RenameAll(pi, s))
  {
    forall i, j | 0 <= i < j < |s| ensures pi.To(s[i]) != pi.To(s[j]) {
      PermInverse(pi, s[i]);
      PermInverse(pi, s[j]);
    }
  }

  lemma ConjugateLinks(m: Slots, pi: Perm, s: SlotId, p: SlotId)
    requires Relocates(m, pi)
    ensures ChildOf(Theory.Conjugate(m, pi), pi.To(s), pi.To(p)) <==> ChildOf(m, s, p)
    ensures Lists(Theory.Conjugate(m, pi), pi.To(p), pi.To(s)) <==> Lists(m, p, s)
  {
    ConjugateAt(m, pi, s);
    ConjugateAt(m, pi, p);
    PermInverse(pi, p);
    if p in m { RenameAllIn(pi, m[p].children, s); }
    if s in m && m[s].parent.Some? { PermInverse(pi, m[s].parent.value); }
  }

  lemma ConjugateParents(m: Slots, pi: Perm)
    requires Relocates(m, pi)
    ensures Renames(ParentsOf(m), ParentsOf(Theory.Conjugate(m, pi)), pi)
  {
    var p, q := ParentsOf(m), ParentsOf(Theory.Conjugate(m, pi));
    forall x ensures (x in p <==> pi.To(x) in q) && (x in p ==> q[pi.To(x)] == pi.To(p[x])) {
      ConjugateAt(m, pi, x);
    }
  }

  lemma ConjugateTree(m: Slots, pi: Perm)
    requires Tree(m) && Relocates(m, pi)
    ensures Tree(Theory.Conjugate(m, pi))
  {
    var r := Theory.Conjugate(m, pi);
    ConjugateParents(m, pi);
    RenameAcyclic(ParentsOf(m), ParentsOf(r), pi);
    forall s, p ensures ChildOf(r, s, p) <==> Lists(r, p, s) {
      PermInverse(pi, s);
      PermInverse(pi, p);
      ConjugateLinks(m, pi, pi.From(s), pi.From(p));
      assert ChildOf(m, pi.From(s), pi.From(p)) <==> Lists(m, pi.From(p), pi.From(s));
    }
    ConjugateTidy(m, pi);
  }

  lemma ConjugateTidy(m: Slots, pi: Perm)
    requires Tidy(m) && Relocates(m, pi)
    ensures Tidy(Theory.Conjugate(m, pi))
  {
    var r := Theory.Conjugate(m, pi);
    forall s | s in r
      ensures NoDup(r[s].children) && (r[s].obj.None? ==> r[s] == EMPTY) && (s.MapCap? ==> r[s].children == [])
    {
      PermInverse(pi, s);
      ConjugateAt(m, pi, pi.From(s));
      RenameAllNoDup(pi, m[pi.From(s)].children);
    }
  }

  lemma ConjugateEdges(m: Slots, objs: Objects, pi: Perm)
    requires Relocates(m, pi) && Edges(m, objs)
    ensures Edges(Theory.Conjugate(m, pi), objs)
  {
    var r := Theory.Conjugate(m, pi);
    forall s, q | ChildOf(r, s, q) && q in r ensures EdgeOK(r[s], r[q], objs) {
      var t, u := pi.From(s), pi.From(q);
      PermInverse(pi, s);
      PermInverse(pi, q);
      ConjugateLinks(m, pi, t, u);
      ConjugateAt(m, pi, t);
      ConjugateAt(m, pi, u);
      assert EdgeOK(m[t], m[u], objs);
    }
  }

  lemma ConjugateNamed(m: Slots, pi: Perm, o: nat)
    requires Relocates(m, pi)
    ensures Named(Theory.Conjugate(m, pi), o) <==> Named(m, o)
  {
    var r := Theory.Conjugate(m, pi);
    if Named(m, o) {
      var s :| s in m && m[s].obj == Some(o);
      ConjugateAt(m, pi, s);
      assert r[pi.To(s)].obj == Some(o);
    }
    if Named(r, o) {
      var t :| t in r && r[t].obj == Some(o);
      PermInverse(pi, t);
      ConjugateAt(m, pi, pi.From(t));
    }
  }

  // ── the invariant, operation by operation ──────────────────────────────────

  /** Everything but the answers follows once the new slots are a tree with sound edges. */
  lemma SettleInv(st: State, m: Slots)
    requires Domain(st.cfg, m) && Tree(m) && Edges(m, st.objs) && Numbered(m, st.objs, st.nextOid)
    requires FrameTable(st.cfg, st.objs, st.frames, st.maps)
    requires forall f: nat, k: nat :: Occupied(m, MapCap(f, k)) ==>
               f < |st.frames| && m[MapCap(f, k)].obj == Some(st.frames[f]) && MapsInto(st.maps, f, k)
    ensures Inv(Settle(st, m))
  {
    var r := Settle(st, m);
    forall f: nat, k: nat ensures MapsInto(r.maps, f, k) <==> Occupied(m, MapCap(f, k)) {
      if Occupied(m, MapCap(f, k)) {
        var pr :| pr in st.maps[f] && pr.0 == k;
        assert pr in r.maps[f];
      }
    }
    forall s, p | ChildOf(m, s, p) && p in m ensures EdgeOK(m[s], m[p], r.objs) {
      assert EdgeOK(m[s], m[p], st.objs);
    }
  }

  lemma DeleteSlotInv(st: State, i: SlotId)
    requires Inv(st) && i in st.slots
    ensures Inv(Settle(st, Theory.Delete(st.slots, i)))
  {
    hide Edges, Live, Acyclic, Symmetric;
    DeleteTree(st.slots, i);
    DeleteEdges(st.slots, st.objs, i);
    SettleInv(st, Theory.Delete(st.slots, i));
  }

  lemma DeleteInv(st: State, n: nat)
    requires Inv(st)
    ensures Inv(Delete(st, n).0)
    ensures Real(n) in st.slots ==> Delete(st, n).0.slots[Real(n)] == EMPTY
  {
    if Occupied(st.slots, Real(n)) { DeleteSlotInv(st, Real(n)); }
  }

  lemma RevokeSlotsInv(st: State, i: SlotId)
    requires Inv(st) && i in st.slots
    ensures Inv(Settle(st, Theory.Revoke(st.slots, i)))
  {
    hide Edges, Live, Acyclic, Symmetric;
    RevokeTree(st.slots, i);
    RevokeEdges(st.slots, st.objs, i);
    SettleInv(st, Theory.Revoke(st.slots, i));
  }

  lemma RevokeInv(st: State, n: nat)
    requires Inv(st)
    ensures Inv(Revoke(st, n).0)
  {
    hide Domain, Tree, Edges, Numbered, Live, FrameTable, MappingAuthority;
    if Occupied(st.slots, Real(n)) { RevokeSlotsInv(st, Real(n)); }
  }

  lemma PlantTree(m: Slots, x: SlotId, s: Slot)
    requires Tree(m) && x in m && m[x] == EMPTY
    requires s.obj.Some? && s.parent.None? && s.children == []
    ensures Tree(m[x := s])
  {
    var r := m[x := s];
    assert ParentsOf(r) == ParentsOf(m);
    forall t, p ensures ChildOf(r, t, p) <==> Lists(r, p, t) {
      assert ChildOf(m, t, p) <==> Lists(m, p, t);
    }
  }

  lemma PlantEdges(m: Slots, objs: Objects, x: SlotId, s: Slot)
    requires Tree(m) && x in m && m[x] == EMPTY && Edges(m, objs)
    requires s.obj.Some? && s.parent.None? && s.children == []
    ensures Edges(m[x := s], objs)
  {
    var r := m[x := s];
    forall t, p | ChildOf(r, t, p) && p in r ensures EdgeOK(r[t], r[p], objs) {
      assert ChildOf(m, t, p) && Lists(m, p, t);
    }
  }

  /** A new object does not disturb the edges. */
  lemma EdgesGrow(m: Slots, objs: Objects, o: nat, v: Obj)
    requires Edges(m, objs) && o !in objs
    ensures Edges(m, objs[o := v])
  {
    forall t, p | ChildOf(m, t, p) && p in m ensures EdgeOK(m[t], m[p], objs[o := v]) {
      assert EdgeOK(m[t], m[p], objs);
    }
  }

  lemma PlantInv(st: State, n: nat, t: ObjType, rights: Rights)
    requires Inv(st) && Real(n) in st.slots && st.slots[Real(n)] == EMPTY
    ensures Inv(Plant(st, n, t, rights))
  {
    hide Tree, Edges, Live, FrameTable;
    var m, r := st.slots, Plant(st, n, t, rights);
    var s := r.slots[Real(n)];
    PlantTree(m, Real(n), s);
    PlantEdges(m, st.objs, Real(n), s);
    EdgesGrow(r.slots, st.objs, st.nextOid, r.objs[st.nextOid]);
    PlantLive(m, st.objs, Real(n), s, st.nextOid, r.objs[st.nextOid]);
    assert Domain(r.cfg, r.slots);
    assert Numbered(r.slots, r.objs, r.nextOid);
    assert MappingAuthority(r.slots, r.frames, r.maps);
    GrowKeeps(st, Obj(t, 0, true));
  }

  lemma PlantLive(m: Slots, objs: Objects, x: SlotId, s: Slot, o: nat, v: Obj)
    requires Live(m, objs) && s.obj == Some(o) && (x in m ==> m[x].obj.None?) && v.alive
    ensures Live(m[x := s], objs[o := v])
  {
    hide Named;
    NamedAfterPlant(m, x, s, o);
    var r := objs[o := v];
    forall o': nat | o' in r ensures r[o'].alive <==> Named(m[x := s], o') {
      assert Named(m[x := s], o') <==> o' == o || Named(m, o');
    }
  }

  /** Filling an empty slot with object `o` names `o`, and otherwise names what was named. */
  lemma NamedAfterPlant(m: Slots, x: SlotId, s: Slot, o: nat)
    requires s.obj == Some(o) && (x in m ==> m[x].obj.None?)
    ensures forall o': nat :: Named(m[x := s], o') <==> o' == o || Named(m, o')
  {
    var r := m[x := s];
    assert r[x].obj == Some(o);
    forall o': nat | Named(m, o') ensures Named(r, o') {
      var t :| t in m && m[t].obj == Some(o');
      assert r[t].obj == Some(o');
    }
  }

  lemma SeedInv(st: State, n: nat, t: ObjType, rights: Rights)
    requires Inv(st)
    ensures Inv(Seed(st, n, t, rights).0)
  {
    if Real(n) in st.slots {
      DeleteInv(st, n);
      PlantInv(Delete(st, n).0, n, t, rights);
    }
  }

  lemma NamedAfterAttach(m: Slots, x: SlotId, o: nat, rights: Rights, badge: int, p: SlotId, o': nat)
    requires CanAttach(m, x, p)
    ensures Named(Theory.Attach(m, x, o, rights, badge, p), o') <==> o' == o || Named(m, o')
  {
    var r := Theory.Attach(m, x, o, rights, badge, p);
    assert r[x].obj == Some(o);
    if Named(m, o') { var t :| t in m && m[t].obj == Some(o'); assert r[t].obj == Some(o'); }
    if Named(r, o') && o' != o { var t :| t in r && r[t].obj == Some(o'); assert m[t].obj == Some(o'); }
  }

  lemma AttachLive(m: Slots, objs: Objects, x: SlotId, o: nat, rights: Rights, badge: int, p: SlotId)
    requires CanAttach(m, x, p) && (o in objs ==> objs[o].alive)
    requires forall o' :: o' in objs && o' != o ==> (objs[o'].alive <==> Named(m, o'))
    ensures Live(Theory.Attach(m, x, o, rights, badge, p), objs)
  {
    forall o' | o' in objs
      ensures objs[o'].alive <==> Named(Theory.Attach(m, x, o, rights, badge, p), o')
    {
      NamedAfterAttach(m, x, o, rights, badge, p, o');
    }
  }

  /** A new object in a new leaf below its Untyped. */
  lemma CreateSlots(st: State, objs: Objects, x: SlotId, t: ObjType, rights: Rights, p: SlotId)
    requires Inv(st) && CanAttach(st.slots, x, p)
    requires st.objs[st.slots[p].obj.value].typ == Untyped
    requires objs == st.objs[st.nextOid := Obj(t, 0, true)]
    ensures var r := Theory.Attach(st.slots, x, st.nextOid, rights, 0, p);
            Tree(r) && Edges(r, objs) && Live(r, objs)
  {
    var m, o := st.slots, st.nextOid;
    var r := Theory.Attach(m, x, o, rights, 0, p);
    AttachEdges(m, st.objs, x, o, rights, 0, p);
    EdgesGrow(r, st.objs, o, objs[o]);
    AttachTree(m, x, o, rights, 0, p);
    AttachLive(m, objs, x, o, rights, 0, p);
  }

  /** What a new leaf among the CSpace slots leaves as it was. */
  lemma AttachRealKeeps(st: State, x: SlotId, o: nat, rights: Rights, badge: int, p: SlotId)
    requires Domain(st.cfg, st.slots) && x.Real? && p.Real? && x in st.slots && p in st.slots && x != p
    ensures var r := Theory.Attach(st.slots, x, o, rights, badge, p);
            && Domain(st.cfg, r)
            && (MappingAuthority(st.slots, st.frames, st.maps) ==> MappingAuthority(r, st.frames, st.maps))
  {
    var r := Theory.Attach(st.slots, x, o, rights, badge, p);
    forall f: nat, k: nat
      ensures Occupied(r, MapCap(f, k)) == Occupied(st.slots, MapCap(f, k))
      ensures Occupied(r, MapCap(f, k)) ==> r[MapCap(f, k)].obj == st.slots[MapCap(f, k)].obj
    {}
  }

  /** What one more object leaves as it was. */
  lemma GrowKeeps(st: State, v: Obj)
    requires Numbered(st.slots, st.objs, st.nextOid) && v.bits == 0
    requires FrameTable(st.cfg, st.objs, st.frames, st.maps)
    ensures Numbered(st.slots, st.objs[st.nextOid := v], st.nextOid + 1)
    ensures FrameTable(st.cfg, st.objs[st.nextOid := v], st.frames, st.maps)
  {}

  lemma RetypeInv(st: State, ut: nat, t: ObjType, dst: nat)
    requires Inv(st)
    ensures Inv(Retype(st, ut, t, dst).0)
  {
    if Retype(st, ut, t, dst).1 == Code(OK) {
      CreateSlots(st, Retype(st, ut, t, dst).0.objs, Real(dst), t, BirthRights(t), Real(ut));
      AttachRealKeeps(st, Real(dst), st.nextOid, BirthRights(t), 0, Real(ut));
      GrowKeeps(st, Obj(t, 0, true));
      hide Domain, Tree, Edges, Live, FrameTable, MappingAuthority;
    }
  }

  /** One more capability to an object that already has one. */
  lemma CopyInv(st: State, x: SlotId, o: nat, rights: Rights, badge: int, p: SlotId)
    requires Inv(st) && CanAttach(st.slots, x, p) && x in st.slots && x.Real?
    requires EdgeOK(Slot(Some(o), rights, badge, Some(p), []), st.slots[p], st.objs)
    requires Named(st.slots, o)
    ensures Inv(st.(slots := Theory.Attach(st.slots, x, o, rights, badge, p)))
  {
    hide Tree, Edges, FrameTable, MappingAuthority, Domain, EdgeOK;
    var m := st.slots;
    AttachTree(m, x, o, rights, badge, p);
    AttachEdges(m, st.objs, x, o, rights, badge, p);
    AttachLive(m, st.objs, x, o, rights, badge, p);
    ParentNotTemp(st, p);
    AttachRealKeeps(st, x, o, rights, badge, p);
  }

  lemma ParentNotTemp(st: State, p: SlotId)
    requires Inv(st) && p in st.slots && !p.MapCap?
    ensures p.Real?
  {}

  lemma MintInv(st: State, src: nat, dst: nat, rights: Rights, badge: int)
    requires Inv(st)
    ensures Inv(Mint(st, src, dst, rights, badge).0)
  {
    if Mint(st, src, dst, rights, badge).1 == Code(OK) {
      var s := st.slots[Real(src)];
      CopyInv(st, Real(dst), s.obj.value, s.rights * rights,
              if badge == 0 then s.badge else badge, Real(src));
    }
  }

  // ── relocation ─────────────────────────────────────────────────────────────

  lemma RotateInv(st: State, dest: nat, pivot: nat, src: nat)
    requires Inv(st)
    ensures Inv(Rotate(st, dest, pivot, src).0)
  {
    if Rotate(st, dest, pivot, src).1 == Code(OK) {
      ConjugateInv(st, RotatePerm(dest, pivot, src));
    }
  }

  lemma ConjugateLive(m: Slots, objs: Objects, pi: Perm)
    requires Relocates(m, pi) && Live(m, objs)
    ensures Live(Theory.Conjugate(m, pi), objs)
  {
    forall o | o in objs ensures Named(Theory.Conjugate(m, pi), o) <==> Named(m, o) { ConjugateNamed(m, pi, o); }
  }

  lemma ConjugateNumbered(m: Slots, objs: Objects, nextOid: nat, pi: Perm)
    requires Relocates(m, pi) && Numbered(m, objs, nextOid)
    ensures Numbered(Theory.Conjugate(m, pi), objs, nextOid)
  {}

  /** A mapping capability is not renamed; only its parent may be. */
  lemma ConjugateMapCap(m: Slots, pi: Perm, f: nat, k: nat)
    requires Relocates(m, pi)
    ensures var r := Theory.Conjugate(m, pi);
            Occupied(r, MapCap(f, k)) == Occupied(m, MapCap(f, k))
            && (Occupied(m, MapCap(f, k)) ==> r[MapCap(f, k)].obj == m[MapCap(f, k)].obj)
  {
    assert !pi.Moves(MapCap(f, k));
  }

  lemma ConjugateMapping(m: Slots, frames: seq<nat>, maps: Mappings, pi: Perm)
    requires Relocates(m, pi) && MappingAuthority(m, frames, maps)
    ensures MappingAuthority(Theory.Conjugate(m, pi), frames, maps)
  {
    forall f: nat, k: nat
      ensures var r := Theory.Conjugate(m, pi);
              Occupied(r, MapCap(f, k)) == Occupied(m, MapCap(f, k))
              && (Occupied(m, MapCap(f, k)) ==> r[MapCap(f, k)].obj == m[MapCap(f, k)].obj)
    {
      ConjugateMapCap(m, pi, f, k);
    }
  }

  /** Any permutation of CSpace slots keeps the invariant. */
  lemma ConjugateInv(st: State, pi: Perm)
    requires Inv(st) && pi.Valid() && forall x :: pi.Moves(x) ==> x.Real? && x in st.slots
    ensures Inv(st.(slots := Theory.Conjugate(st.slots, pi)))
  {
    assert Domain(st.cfg, Theory.Conjugate(st.slots, pi)) by { ConjugateKeys(st.slots, pi); }
    ConjugateTree(st.slots, pi);
    ConjugateEdges(st.slots, st.objs, pi);
    ConjugateNumbered(st.slots, st.objs, st.nextOid, pi);
    ConjugateLive(st.slots, st.objs, pi);
    ConjugateMapping(st.slots, st.frames, st.maps, pi);
  }

  /** Only the order of one child list differs. */
  ghost predicate SameUpToOrder(m: Slots, r: Slots) {
    && r.Keys == m.Keys
    && (forall s :: s in m ==> r[s] == m[s].(children := r[s].children) && NoDup(r[s].children))
    && (forall p, s :: Lists(r, p, s) <==> Lists(m, p, s))
  }

  lemma ReorderInv(st: State, r: Slots)
    requires Inv(st) && SameUpToOrder(st.slots, r)
    ensures Inv(st.(slots := r))
  {
    var m := st.slots;
    assert Tree(r) by { ReorderTree(m, r); }
    forall s, p | ChildOf(r, s, p) && p in r ensures EdgeOK(r[s], r[p], st.objs) {
      assert ChildOf(m, s, p);
    }
    forall o: nat ensures Named(r, o) <==> Named(m, o) {
      if Named(m, o) { var s :| s in m && m[s].obj == Some(o); assert r[s].obj == Some(o); }
    }
  }

  lemma ReorderTree(m: Slots, r: Slots)
    requires Tree(m) && SameUpToOrder(m, r)
    ensures Tree(r)
  {
    assert ParentsOf(r) == ParentsOf(m);
    forall s, p ensures ChildOf(r, s, p) <==> Lists(r, p, s) { assert ChildOf(m, s, p) <==> Lists(m, p, s); }
    forall s | s in r ensures (m[s].children == [] ==> r[s].children == []) {
      if m[s].children == [] && r[s].children != [] { assert Lists(r, s, r[s].children[0]); }
    }
  }

  /** A move is the transposition of source and destination, up to the order of one child list. */
  lemma MoveIsSwap(m: Slots, a: SlotId, b: SlotId)
    requires Tree(m) && Occupied(m, a) && b in m && m[b] == EMPTY && !a.MapCap? && !b.MapCap?
    ensures SameUpToOrder(Theory.Conjugate(m, Swap(a, b)), Theory.Move(m, a, b))
  {
    var c, r := Theory.Conjugate(m, Swap(a, b)), Theory.Move(m, a, b);
    ConjugateTree(m, Swap(a, b));
    if m[a].parent.Some? {
      var p := m[a].parent.value;
      assert ChildOf(m, a, p) && Lists(m, p, a);
      NoSelfParent(m, a);
      ConjugateLinks(m, Swap(a, b), a, p);
      ConjugateAt(m, Swap(a, b), p);
      assert Lists(c, p, b);
      NoDupSnoc(Theory.Without(c[p].children, b), b);
    }
  }

  lemma MoveInv(st: State, src: nat, dst: nat)
    requires Inv(st)
    ensures Inv(Move(st, src, dst).0)
  {
    if Move(st, src, dst).1 == Code(OK) {
      var a, b := Real(src), Real(dst);
      ConjugateInv(st, Swap(a, b));
      MoveIsSwap(st.slots, a, b);
      ReorderInv(st.(slots := Theory.Conjugate(st.slots, Swap(a, b))), Theory.Move(st.slots, a, b));
    }
  }

  // ── notifications ──────────────────────────────────────────────────────────

  /** Setting a notification's bits. */
  lemma BitsInv(st: State, o: nat, w: bv64)
    requires Inv(st) && o in st.objs && (w != 0 ==> st.objs[o].typ == Notification)
    ensures Inv(st.(objs := st.objs[o := st.objs[o].(bits := w)]))
  {
    var m, objs := st.slots, st.objs[o := st.objs[o].(bits := w)];
    forall t, p | ChildOf(m, t, p) && p in m ensures EdgeOK(m[t], m[p], objs) {
      assert EdgeOK(m[t], m[p], st.objs);
    }
  }

  lemma SignalInv(st: State, n: nat, pat: nat)
    requires Inv(st)
    ensures Inv(Signal(st, n, pat).0)
  {
    var r := Resolve(st, n, WRITE);
    if r.Resolved? { BitsInv(st, r.oid, Raise(st.objs[r.oid].bits, pat)); }
  }

  lemma PollInv(st: State, n: nat)
    requires Inv(st)
    ensures Inv(Poll(st, n).0)
  {
    var r := Resolve(st, n, WAIT);
    if r.Resolved? { BitsInv(st, r.oid, 0); }
  }

  // ── address spaces ─────────────────────────────────────────────────────────

  lemma VFrameInv(st: State, n: nat)
    requires Inv(st)
    ensures Inv(VFrame(st, n).0)
  {
    var (st1, a) := Seed(st, n, Frame, {READ, WRITE, DUPLICATE});
    SeedInv(st, n, Frame, {READ, WRITE, DUPLICATE});
    if VFrame(st, n).1 == Code(OK) { FrameTableGrows(st1, st.nextOid); }
  }

  /** A frame nobody maps is added to the table. */
  lemma FrameTableGrows(st: State, o: nat)
    requires Inv(st) && |st.frames| < st.cfg.nframes
    requires o in st.objs && st.objs[o].typ == Frame && o !in st.frames
    ensures Inv(st.(frames := st.frames + [o], maps := st.maps[|st.frames| := {}]))
  {
    var f, frames, maps := |st.frames|, st.frames + [o], st.maps[|st.frames| := {}];
    NoDupSnoc(st.frames, o);
    forall g: nat, k: nat ensures MapsInto(maps, g, k) <==> MapsInto(st.maps, g, k) {}
  }

  /** Space `k` maps frame `f` at one more free address. */
  lemma MapsGrow(st: State, f: nat, k: nat, va: int)
    requires FrameTable(st.cfg, st.objs, st.frames, st.maps) && f < |st.frames| && k < st.cfg.nspaces
    requires forall g :: g in st.maps ==> (k, va) !in st.maps[g]
    ensures var maps := st.maps[f := st.maps[f] + {(k, va)}];
            && FrameTable(st.cfg, st.objs, st.frames, maps)
            && forall g: nat, j: nat :: MapsInto(maps, g, j) <==> MapsInto(st.maps, g, j) || (g == f && j == k)
  {
    var maps := st.maps[f := st.maps[f] + {(k, va)}];
    forall g: nat, j: nat ensures MapsInto(maps, g, j) <==> MapsInto(st.maps, g, j) || (g == f && j == k) {
      if MapsInto(st.maps, g, j) { var pr :| pr in st.maps[g] && pr.0 == j; assert pr in maps[g]; }
      if g == f && j == k { assert (k, va) in maps[f]; }
    }
  }

  lemma ParentIsReal(st: State, s: SlotId)
    requires Inv(st) && s in st.slots
    ensures st.slots[s].parent.Some? ==>
              var p := st.slots[s].parent.value; p.Real? && Occupied(st.slots, p) && Lists(st.slots, p, s)
  {
    if st.slots[s].parent.Some? { assert ChildOf(st.slots, s, st.slots[s].parent.value); }
  }

  lemma VMapInv(st: State, n: nat, va: int, space: nat)
    requires Inv(st)
    ensures Inv(VMap(st, n, va, space).0)
  {
    hide Tree, Edges, Numbered, Live;
    var (st', a) := VMap(st, n, va, space);
    if a == Code(OK) {
      var k := space % st.cfg.nspaces;
      var f := FrameIndex(st.frames, st.slots[Real(n)].obj.value).value;
      MapsGrow(st, f, k, va);
      ParentIsReal(st, Real(n));
      GrantInv(st, n, f, k);
    }
  }

  /** A mapping capability is hung beside, or below, the slot mapped through. */
  lemma GrantAttach(st: State, n: nat, f: nat, k: nat, p: SlotId)
    requires Inv(st) && Occupied(st.slots, Real(n)) && !Occupied(st.slots, MapCap(f, k))
    requires p == if st.slots[Real(n)].parent.Some? then st.slots[Real(n)].parent.value else Real(n)
    ensures CanAttach(st.slots, MapCap(f, k), p)
    ensures var s := st.slots[Real(n)];
            EdgeOK(Slot(s.obj, s.rights, s.badge, Some(p), []), st.slots[p], st.objs)
  {
    var m, s := st.slots, st.slots[Real(n)];
    if s.parent.Some? {
      assert ChildOf(m, Real(n), p) && Lists(m, p, Real(n));
      assert EdgeOK(s, m[p], st.objs);
    }
  }

  lemma GrantInv(st: State, n: nat, f: nat, k: nat)
    requires Inv(st) && Occupied(st.slots, Real(n)) && f < st.cfg.nframes && k < st.cfg.nspaces
    requires st.slots[Real(n)].parent.Some? ==>
               st.slots[Real(n)].parent.value in st.slots && st.slots[Real(n)].parent.value != MapCap(f, k)
    ensures var r := GrantMapCap(st.slots, Real(n), MapCap(f, k));
            && Domain(st.cfg, r) && Tree(r) && Edges(r, st.objs)
            && Numbered(r, st.objs, st.nextOid) && Live(r, st.objs)
            && Occupied(r, MapCap(f, k))
            && (!Occupied(st.slots, MapCap(f, k)) ==> r[MapCap(f, k)].obj == st.slots[Real(n)].obj)
            && forall x: SlotId :: x.MapCap? && x != MapCap(f, k) ==> (x in r <==> x in st.slots) && (x in r ==> r[x] == st.slots[x])
  {
    hide Tree, Edges, FrameTable, MappingAuthority;
    if !Occupied(st.slots, MapCap(f, k)) {
      var m, s := st.slots, st.slots[Real(n)];
      var p := if s.parent.Some? then s.parent.value else Real(n);
      GrantAttach(st, n, f, k, p);
      AttachTree(m, MapCap(f, k), s.obj.value, s.rights, s.badge, p);
      AttachEdges(m, st.objs, MapCap(f, k), s.obj.value, s.rights, s.badge, p);
      assert Named(m, s.obj.value);
      AttachLive(m, st.objs, MapCap(f, k), s.obj.value, s.rights, s.badge, p);
    }
  }

  /** Space `k` stops mapping frame `f` at one address. */
  lemma MapsShrink(st: State, f: nat, k: nat, va: int)
    requires FrameTable(st.cfg, st.objs, st.frames, st.maps) && f in st.maps && (k, va) in st.maps[f]
    ensures var maps := st.maps[f := st.maps[f] - {(k, va)}];
            && FrameTable(st.cfg, st.objs, st.frames, maps)
            && MapsInto(st.maps, f, k)
            && forall g: nat, j: nat :: g != f || j != k ==> (MapsInto(maps, g, j) <==> MapsInto(st.maps, g, j))
  {
    var maps := st.maps[f := st.maps[f] - {(k, va)}];
    forall g: nat, j: nat | g != f || j != k ensures MapsInto(maps, g, j) <==> MapsInto(st.maps, g, j) {
      if MapsInto(st.maps, g, j) {
        var pr :| pr in st.maps[g] && pr.0 == j;
        assert pr in maps[g];
      }
    }
    assert (k, va) in st.maps[f];
  }

  lemma UnmapInv(st: State, f: nat, k: nat, va: int)
    requires Inv(st) && f in st.maps && (k, va) in st.maps[f]
    ensures var st1 := st.(maps := st.maps[f := st.maps[f] - {(k, va)}]);
            if MapsInto(st1.maps, f, k) then Inv(st1)
            else Inv(Settle(st1, Theory.Delete(st.slots, MapCap(f, k))))
  {
    var st1, mc := st.(maps := st.maps[f := st.maps[f] - {(k, va)}]), MapCap(f, k);
    MapsShrink(st, f, k, va);
    if !MapsInto(st1.maps, f, k) {
      DeleteTree(st.slots, mc);
      DeleteEdges(st.slots, st.objs, mc);
      hide Tree, Edges;
      SettleInv(st1, Theory.Delete(st.slots, mc));
    }
  }

  lemma VUnmapInv(st: State, f: nat, va: int, space: nat)
    requires Inv(st)
    ensures Inv(VUnmap(st, f, va, space).0)
  {
    hide Domain, Tree, Edges, Numbered, Live;
    if VUnmap(st, f, va, space).1 == Code(OK) {
      UnmapInv(st, f, space % st.cfg.nspaces, va);
    }
  }

  /** Every operation, refused or not, keeps the invariant. */
  lemma StepInv(st: State, op: Op)
    requires Inv(st)
    ensures Inv(Step(st, op).0)
  {
    hide Inv, Seed, Retype, Mint, Move, Rotate, Delete, Revoke, Signal, Poll, VFrame, VMap, VUnmap;
    match op
    case OpSeed(n, t, r) => SeedInv(st, n, t, r);
    case OpInstallUntyped(n) => SeedInv(st, n, Untyped, {READ, WRITE, DUPLICATE, TRANSFER});
    case OpRetype(u, t, d) => RetypeInv(st, u, t, d);
    case OpMint(s, d, r, b) => MintInv(st, s, d, r, b);
    case OpSyscallMint(s, d, r, b) => MintInv(st, s, d, r, b);
    case OpMove(s, d) => MoveInv(st, s, d);
    case OpRotate(d, p, s) => RotateInv(st, d, p, s);
    case OpDelete(n) => DeleteInv(st, n);
    case OpRevoke(n) => RevokeInv(st, n);
    case OpSyscallRevoke(n) => RevokeInv(st, n);
    case OpUtReset(n) =>
    case OpSignal(n, p) => SignalInv(st, n, p);
    case OpPoll(n) => PollInv(st, n);
    case OpVFrame(n) => VFrameInv(st, n);
    case OpVMap(n, va, k) => VMapInv(st, n, va, k);
    case OpVUnmap(f, va, k) => VUnmapInv(st, f, va, k);
  }
}
