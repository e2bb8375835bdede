/** Runs with their history: the rights each object was born with, the Untypeds it descends from,
    and where the capability it was born with is now.
 */
module History {
  import opened Wrappers
  import opened Forest
  import opened Authority
  import Theory
  import opened Operations
  import opened Preservation
  import opened Ancestry
  import Model
  import Runs

  /** `birth[o]`: the rights of the first capability to `o`. `lineage[o]`: `o` and every object it
      was carved from, directly or not. `home[o]`: the slot that holds the capability `o` was born
      with, followed through moves and rotates, absent once that capability is deleted, revoked
      or overwritten. */
  datatype Tracked = Tracked(st: State, birth: map<nat, Rights>, lineage: map<nat, set<nat>>,
                             home: map<nat, SlotId>)

  /** Where the capability at `x` is after an operation that relocated it. */
  function Relocation(op: Op, x: SlotId): SlotId {
    match op
    case OpMove(s, d) => Swap(Real(s), Real(d)).To(x)
    case OpRotate(d, p, s) => if s != p && d != p then RotatePerm(d, p, s).To(x) else x
    case _ => x
  }

  /** The slot an operation that makes an object puts it in. */
  function Target(op: Op): SlotId {
    match op
    case OpSeed(n, _, _) => Real(n)
    case OpInstallUntyped(n) => Real(n)
    case OpRetype(_, _, d) => Real(d)
    case OpVFrame(n) => Real(n)
    case _ => Temp
  }

  /** The lineage a new object inherits. */
  function Inherited(t: Tracked, op: Op): set<nat> {
    if op.OpRetype? && Occupied(t.st.slots, Real(op.ut)) && t.st.slots[Real(op.ut)].obj.value in t.lineage
    then t.lineage[t.st.slots[Real(op.ut)].obj.value] else {}
  }

  /** The first capabilities still in place, at their new addresses. */
  ghost function Surviving(home: map<nat, SlotId>, m: Slots, op: Op, moved: bool): map<nat, SlotId> {
    map u | u in home && Stays(home[u], u, m, op, moved) :: Destination(home[u], op, moved)
  }

  function Destination(x: SlotId, op: Op, moved: bool): SlotId {
    if moved then Relocation(op, x) else x
  }

  ghost predicate Stays(x: SlotId, u: nat, m: Slots, op: Op, moved: bool) {
    Destination(x, op, moved) in m && m[Destination(x, op, moved)].obj == Some(u)
  }

  ghost function Follow(t: Tracked, op: Op): Tracked
    requires Inv(t.st)
  {
    var (st', a) := Step(t.st, op);
    var home := Surviving(t.home, st'.slots, op, a == Code(OK));
    if st'.nextOid == t.st.nextOid || Target(op) !in st'.slots then Tracked(st', t.birth, t.lineage, home)
    else
      var o := t.st.nextOid;
      Tracked(st', t.birth[o := st'.slots[Target(op)].rights], t.lineage[o := Inherited(t, op) + {o}],
              home[o := Target(op)])
  }

  ghost predicate HistoryInv(t: Tracked) {
    && Inv(t.st)
    && t.birth.Keys == t.lineage.Keys == t.st.objs.Keys && t.home.Keys <= t.st.objs.Keys
    && BornWith(t) && AtHome(t) && Below(t) && FramesAreRoots(t)
  }

  /** No capability holds a right its object was not born with. */
  ghost predicate BornWith(t: Tracked) {
    forall s :: Occupied(t.st.slots, s) && t.st.slots[s].obj.value in t.birth ==>
      t.st.slots[s].rights <= t.birth[t.st.slots[s].obj.value]
  }

  ghost predicate AtHome(t: Tracked) {
    forall u :: u in t.home ==>
      t.home[u].Real? && Occupied(t.st.slots, t.home[u]) && t.st.slots[t.home[u]].obj == Some(u)
  }

  /** `s` is the slot `h` or below it. */
  ghost predicate AtOrBelow(m: Slots, h: SlotId, s: SlotId) {
    s == h || Ancestor(m, h, s)
  }

  /** While an object's first capability is in place, every capability to it, and to everything
      carved from it through any copy, is that capability or below it. */
  ghost predicate Below(t: Tracked) {
    forall s, u :: Occupied(t.st.slots, s) && t.st.slots[s].obj.value in t.lineage
                   && u in t.lineage[t.st.slots[s].obj.value] && u in t.home ==>
      AtOrBelow(t.st.slots, t.home[u], s)
  }

  /** A mapped frame descends from nothing, and its first capability is a root. */
  ghost predicate FramesAreRoots(t: Tracked) {
    && (forall o :: o in t.lineage ==> o in t.lineage[o] && t.lineage[o] <= t.lineage.Keys)
    && (forall o :: o in t.st.frames && o in t.lineage ==> t.lineage[o] == {o})
    && (forall o :: o in t.st.frames && o in t.home && t.home[o] in t.st.slots ==>
          t.st.slots[t.home[o]].parent.None?)
  }

  /** A fresh model has no history. */
  function NoHistory(cfg: Config): Tracked {
    Tracked(Model.Initial(cfg), map[], map[], map[])
  }

  lemma NoHistoryInv(cfg: Config)
    requires 0 < cfg.nspaces
    ensures HistoryInv(NoHistory(cfg))
  {
    Model.InitialInv(cfg);
  }

  // ── operations that only take capabilities away ────────────────────────────

  /** Whatever is left was there before, with the same object and rights, no fewer ancestors among
      what is left, and no new parent for a root. */
  ghost predicate Thins(m: Slots, m': Slots) {
    && (forall s :: Occupied(m', s) ==> Occupied(m, s) && m'[s].obj == m[s].obj && m'[s].rights == m[s].rights)
    && (forall a, d :: Occupied(m', a) && Occupied(m', d) && Ancestor(m, a, d) ==> Ancestor(m', a, d))
    && (forall s :: Occupied(m', s) && m[s].parent.None? ==> m'[s].parent.None?)
  }

  lemma ThinHistory(t: Tracked, st': State, op: Op, moved: bool)
    requires HistoryInv(t) && Inv(st') && Thins(t.st.slots, st'.slots)
    requires st'.frames == t.st.frames && st'.objs.Keys == t.st.objs.Keys
    requires forall x :: Destination(x, op, moved) == x
    ensures HistoryInv(Tracked(st', t.birth, t.lineage, Surviving(t.home, st'.slots, op, moved)))
  {
    hide Inv, Thins, Below, BornWith, FramesAreRoots, AtHome;
    var t' := Tracked(st', t.birth, t.lineage, Surviving(t.home, st'.slots, op, moved));
    ThinHomes(t, t');
    ThinBelow(t, t');
  }

  /** `t'` keeps some of the homes of `t`, and the same births and lineages. */
  ghost predicate KeepsHomes(t: Tracked, t': Tracked) {
    && t'.birth == t.birth && t'.lineage == t.lineage && t'.st.frames == t.st.frames
    && forall u :: u in t'.home ==>
         u in t.home && t'.home[u] == t.home[u] && t'.home[u] in t'.st.slots && t'.st.slots[t'.home[u]].obj == Some(u)
  }

  lemma ThinHomes(t: Tracked, t': Tracked)
    requires BornWith(t) && AtHome(t) && FramesAreRoots(t) && Thins(t.st.slots, t'.st.slots) && KeepsHomes(t, t')
    ensures BornWith(t') && AtHome(t') && FramesAreRoots(t')
  {}

  lemma ThinBelow(t: Tracked, t': Tracked)
    requires Below(t) && Thins(t.st.slots, t'.st.slots) && KeepsHomes(t, t')
    ensures Below(t')
  {
    forall s, u | Occupied(t'.st.slots, s) && t'.st.slots[s].obj.value in t.lineage
                  && u in t.lineage[t'.st.slots[s].obj.value] && u in t'.home
      ensures AtOrBelow(t'.st.slots, t'.home[u], s)
    {
      assert AtOrBelow(t.st.slots, t.home[u], s);
    }
  }

  lemma SameThins(m: Slots, m': Slots)
    requires m'.Keys == m.Keys
    requires forall s :: s in m ==> m'[s].obj == m[s].obj && m'[s].rights == m[s].rights && m'[s].parent == m[s].parent
    ensures Thins(m, m')
  {
    assert ParentsOf(m') == ParentsOf(m);
  }

  lemma DeleteThins(m: Slots, i: SlotId)
    requires Tree(m) && i in m
    ensures Thins(m, Theory.Delete(m, i))
  {
    DeleteParents(m, i);
    var m' := Theory.Delete(m, i);
    forall a, d | Occupied(m', a) && Occupied(m', d) && Ancestor(m, a, d) ensures Ancestor(m', a, d) {
      SpliceAnc(ParentsOf(m), i, a, d);
    }
    forall s | Occupied(m', s) && m[s].parent.None? ensures m'[s].parent.None? {
      assert Lists(m, i, s) <==> ChildOf(m, s, i);
    }
  }

  lemma RevokeThins(m: Slots, i: SlotId)
    requires Tree(m) && i in m
    ensures Thins(m, Theory.Revoke(m, i))
  {
    RevokeParents(m, i);
    var p, m' := ParentsOf(m), Theory.Revoke(m, i);
    forall a, d | Occupied(m', a) && Occupied(m', d) && Ancestor(m, a, d) ensures Ancestor(m', a, d) {
      PruneAnc(p, Desc(p, i), a, d);
    }
  }

  // ── operations that add one capability ─────────────────────────────────────

  /** What a new leaf `x` under `p` must satisfy to keep the history: its rights are birth rights,
      and each first capability of its lineage is `p`, above `p`, or `x` itself. */
  ghost predicate LeafFits(t: Tracked, t': Tracked, x: SlotId, p: SlotId) {
    && x in t'.st.slots && t'.st.slots[x].obj.Some? && t'.st.slots[x].obj.value in t'.birth
    && t'.birth.Keys == t'.lineage.Keys
    && t'.st.slots[x].rights <= t'.birth[t'.st.slots[x].obj.value]
    && (forall u :: u in t'.lineage[t'.st.slots[x].obj.value] && u in t'.home ==>
          t'.home[u] == x || AtOrBelow(t.st.slots, t'.home[u], p))
  }

  /** The history grows by at most one object, whose first capability is `x`. */
  ghost predicate Extends(t: Tracked, t': Tracked, x: SlotId) {
    && (forall o :: o in t.birth ==> o in t'.birth && t'.birth[o] == t.birth[o])
    && (forall o :: o in t.lineage ==> o in t'.lineage && t'.lineage[o] == t.lineage[o])
    && (forall u :: u in t'.home ==> if u in t.home then t'.home[u] == t.home[u] else t'.home[u] == x && u !in t.lineage)
  }

  lemma LeafHistory(t: Tracked, t': Tracked, x: SlotId, o: nat, rights: Rights, badge: int, p: SlotId)
    requires HistoryInv(t) && Inv(t'.st) && CanAttach(t.st.slots, x, p)
    requires t'.st.slots == Theory.Attach(t.st.slots, x, o, rights, badge, p)
    requires t'.birth.Keys == t'.lineage.Keys == t'.st.objs.Keys && t'.home.Keys <= t'.st.objs.Keys
    requires Extends(t, t', x) && LeafFits(t, t', x, p)
    requires AtHome(t') && FramesAreRoots(t')
    ensures HistoryInv(t')
  {
    hide Inv, Tree, Below, BornWith, FramesAreRoots, AtHome;
    LeafBornWith(t, t', x, o, rights, badge, p);
    LeafBelow(t, t', x, o, rights, badge, p);
  }

  lemma ObjectsTracked(t: Tracked, s: SlotId)
    requires HistoryInv(t) && Occupied(t.st.slots, s)
    ensures t.st.slots[s].obj.value in t.lineage && t.st.slots[s].obj.value in t.birth
  {}

  lemma LeafBornWith(t: Tracked, t': Tracked, x: SlotId, o: nat, rights: Rights, badge: int, p: SlotId)
    requires HistoryInv(t) && CanAttach(t.st.slots, x, p)
    requires t'.st.slots == Theory.Attach(t.st.slots, x, o, rights, badge, p)
    requires Extends(t, t', x) && LeafFits(t, t', x, p)
    ensures BornWith(t')
  {
    hide Inv, Tree, Below, FramesAreRoots, AtHome;
    var m' := t'.st.slots;
    forall s | Occupied(m', s) && m'[s].obj.value in t'.birth ensures m'[s].rights <= t'.birth[m'[s].obj.value] {
      if s != x { ObjectsTracked(t, s); }
    }
  }

  lemma LeafBelow(t: Tracked, t': Tracked, x: SlotId, o: nat, rights: Rights, badge: int, p: SlotId)
    requires HistoryInv(t) && CanAttach(t.st.slots, x, p)
    requires t'.st.slots == Theory.Attach(t.st.slots, x, o, rights, badge, p)
    requires Extends(t, t', x) && LeafFits(t, t', x, p)
    ensures Below(t')
  {
    hide Inv, Tree, BornWith, AtHome;
    var m, m' := t.st.slots, t'.st.slots;
    AttachParents(m, x, o, rights, badge, p);
    forall s, u | Occupied(m', s) && m'[s].obj.value in t'.lineage
                  && u in t'.lineage[m'[s].obj.value] && u in t'.home
      ensures AtOrBelow(m', t'.home[u], s)
    {
      LeafAnc(ParentsOf(m), x, p, t'.home[u], s);
      if s != x {
        ObjectsTracked(t, s);
        assert u in t.lineage[m[s].obj.value];
        assert AtOrBelow(m, t.home[u], s);
      }
    }
  }

  /** A new object in an empty slot, a root. */
  ghost predicate Planted(t: Tracked, t': Tracked, x: SlotId, o: nat, rights: Rights) {
    && x.Real? && x in t.st.slots && t.st.slots[x] == EMPTY && o !in t.st.objs
    && t'.st.slots == t.st.slots[x := Slot(Some(o), rights, 0, None, [])]
    && t'.st.objs.Keys == t.st.objs.Keys + {o}
    && t'.birth == t.birth[o := rights] && t'.lineage == t.lineage[o := {o}] && t'.home == t.home[o := x]
    && (t'.st.frames == t.st.frames || t'.st.frames == t.st.frames + [o])
  }

  lemma PlantHomes(t: Tracked, t': Tracked, x: SlotId, o: nat, rights: Rights)
    requires HistoryInv(t) && Planted(t, t', x, o, rights)
    ensures BornWith(t') && AtHome(t') && FramesAreRoots(t')
  {
    hide Inv, Below, BornWith;
    FramesTracked(t);
    PlantBornWith(t, t', x, o, rights);
    forall u | u in t.home ensures t.home[u] != x {}
  }

  lemma PlantBornWith(t: Tracked, t': Tracked, x: SlotId, o: nat, rights: Rights)
    requires HistoryInv(t) && Planted(t, t', x, o, rights)
    ensures BornWith(t')
  {
    hide Inv, Below, AtHome, FramesAreRoots;
    forall s | Occupied(t'.st.slots, s) && s != x ensures t.st.slots[s].obj.value in t.birth { ObjectsTracked(t, s); }
  }

  lemma PlantBelow(t: Tracked, t': Tracked, x: SlotId, o: nat, rights: Rights)
    requires HistoryInv(t) && Planted(t, t', x, o, rights)
    ensures Below(t')
  {
    hide Inv, BornWith, AtHome;
    var m, m' := t.st.slots, t'.st.slots;
    assert ParentsOf(m') == ParentsOf(m);
    forall s, u | Occupied(m', s) && m'[s].obj.value in t'.lineage
                  && u in t'.lineage[m'[s].obj.value] && u in t'.home
      ensures AtOrBelow(m', t'.home[u], s)
    {
      if s != x {
        ObjectsTracked(t, s);
        assert AtOrBelow(m, t.home[u], s);
      }
    }
  }

  lemma PlantHistory(t: Tracked, t': Tracked, x: SlotId, o: nat, rights: Rights)
    requires HistoryInv(t) && Inv(t'.st) && Planted(t, t', x, o, rights)
    ensures HistoryInv(t')
  {
    hide Inv, Below, BornWith, FramesAreRoots, AtHome;
    PlantHomes(t, t', x, o, rights);
    PlantBelow(t, t', x, o, rights);
  }

  lemma FramesTracked(t: Tracked)
    requires HistoryInv(t)
    ensures forall o :: o in t.st.frames ==> o in t.st.objs
  {}

  // ── operations that rename ─────────────────────────────────────────────────

  /** Every capability is at its image, with its object, rights, ancestors and rootness. */
  ghost predicate Carries(m: Slots, m': Slots, pi: Perm) {
    && (forall t :: Occupied(m', t) ==> Occupied(m, pi.From(t)) && m'[t].obj == m[pi.From(t)].obj
                                        && m'[t].rights == m[pi.From(t)].rights
                                        && (m[pi.From(t)].parent.None? ==> m'[t].parent.None?))
    && (forall a, d :: Ancestor(m, a, d) ==> Ancestor(m', pi.To(a), pi.To(d)))
  }

  /** The homes of `t'` are the images of homes of `t`. */
  ghost predicate CarriesHomes(t: Tracked, t': Tracked, pi: Perm) {
    && t'.birth == t.birth && t'.lineage == t.lineage && t'.st.frames == t.st.frames
    && forall u :: u in t'.home ==>
         u in t.home && t'.home[u] == pi.To(t.home[u]) && t'.home[u] in t'.st.slots && t'.st.slots[t'.home[u]].obj == Some(u)
  }

  lemma CarryHomes(t: Tracked, t': Tracked, pi: Perm)
    requires BornWith(t) && AtHome(t) && FramesAreRoots(t)
    requires pi.Valid() && (forall x :: pi.Moves(x) ==> x.Real?)
    requires Carries(t.st.slots, t'.st.slots, pi) && CarriesHomes(t, t', pi)
    ensures BornWith(t') && AtHome(t') && FramesAreRoots(t')
  {
    forall u | u in t'.home ensures t'.home[u].Real? && pi.From(t'.home[u]) == t.home[u] { PermInverse(pi, t.home[u]); }
  }

  lemma CarryBelow(t: Tracked, t': Tracked, pi: Perm)
    requires Below(t) && pi.Valid() && Carries(t.st.slots, t'.st.slots, pi) && CarriesHomes(t, t', pi)
    ensures Below(t')
  {
    forall s, u | Occupied(t'.st.slots, s) && t'.st.slots[s].obj.value in t.lineage
                  && u in t.lineage[t'.st.slots[s].obj.value] && u in t'.home
      ensures AtOrBelow(t'.st.slots, t'.home[u], s)
    {
      PermInverse(pi, s);
      assert AtOrBelow(t.st.slots, t.home[u], pi.From(s));
    }
  }

  lemma CarryHistory(t: Tracked, t': Tracked, pi: Perm)
    requires HistoryInv(t) && Inv(t'.st) && t'.st.objs.Keys == t.st.objs.Keys
    requires pi.Valid() && (forall x :: pi.Moves(x) ==> x.Real?)
    requires Carries(t.st.slots, t'.st.slots, pi) && CarriesHomes(t, t', pi)
    ensures HistoryInv(t')
  {
    hide Inv, Carries, Below, BornWith, FramesAreRoots, AtHome;
    CarryHomes(t, t', pi);
    CarryBelow(t, t', pi);
    assert t'.home.Keys <= t.home.Keys;
  }

  lemma ConjugateCarries(m: Slots, pi: Perm)
    requires Relocates(m, pi)
    ensures Carries(m, Theory.Conjugate(m, pi), pi)
  {
    var m' := Theory.Conjugate(m, pi);
    forall t | Occupied(m', t)
      ensures Occupied(m, pi.From(t)) && m'[t].obj == m[pi.From(t)].obj && m'[t].rights == m[pi.From(t)].rights
              && (m[pi.From(t)].parent.None? ==> m'[t].parent.None?)
    {}
    forall a, d | Ancestor(m, a, d) ensures Ancestor(m', pi.To(a), pi.To(d)) { ConjugateTransports(m, pi, a, d); }
  }

  lemma ReorderCarries(m: Slots, c: Slots, m': Slots, pi: Perm)
    requires Carries(m, c, pi) && SameUpToOrder(c, m')
    ensures Carries(m, m', pi)
  {
    assert ParentsOf(m') == ParentsOf(c);
  }

  // ── each operation ─────────────────────────────────────────────────────────

  lemma FollowMove(t: Tracked, src: nat, dst: nat)
    requires HistoryInv(t) && Move(t.st, src, dst).1 == Code(OK)
    ensures HistoryInv(Follow(t, OpMove(src, dst)))
  {
    hide Inv, Below, BornWith, FramesAreRoots, AtHome, Theory.Conjugate, Theory.Move;
    var pi := Swap(Real(src), Real(dst));
    MoveInv(t.st, src, dst);
    MoveIsRenaming(t.st, src, dst);
    ConjugateCarries(t.st.slots, pi);
    ReorderCarries(t.st.slots, Theory.Conjugate(t.st.slots, pi), Move(t.st, src, dst).0.slots, pi);
    CarryHistory(t, Follow(t, OpMove(src, dst)), pi);
  }

  lemma FollowRotate(t: Tracked, dest: nat, pivot: nat, src: nat)
    requires HistoryInv(t) && Rotate(t.st, dest, pivot, src).1 == Code(OK)
    ensures HistoryInv(Follow(t, OpRotate(dest, pivot, src)))
  {
    hide Inv, Below, BornWith, FramesAreRoots, AtHome, Theory.Conjugate;
    var pi := RotatePerm(dest, pivot, src);
    RotateInv(t.st, dest, pivot, src);
    ConjugateCarries(t.st.slots, pi);
    CarryHistory(t, Follow(t, OpRotate(dest, pivot, src)), pi);
  }

  /** The history after a delete that is part of a larger operation. */
  ghost function AfterDelete(t: Tracked, n: nat): Tracked {
    var st1 := Delete(t.st, n).0;
    Tracked(st1, t.birth, t.lineage, Surviving(t.home, st1.slots, OpDelete(n), true))
  }

  lemma FollowDelete(t: Tracked, n: nat)
    requires HistoryInv(t)
    ensures HistoryInv(AfterDelete(t, n))
  {
    hide Inv, Tree, Below, BornWith, FramesAreRoots, AtHome, Theory.Delete;
    DeleteInv(t.st, n);
    Slim(t.st);
    if Occupied(t.st.slots, Real(n)) { DeleteThins(t.st.slots, Real(n)); } else { SameThins(t.st.slots, t.st.slots); }
    ThinHistory(t, Delete(t.st, n).0, OpDelete(n), true);
  }

  lemma Slim(st: State)
    requires Inv(st)
    ensures Tree(st.slots) && st.nextOid !in st.objs
  {}

  /** Seeding, installing an Untyped and making a frame are a delete followed by a planting. */
  lemma FollowSeed(t: Tracked, op: Op, n: nat, ty: ObjType, rights: Rights)
    requires HistoryInv(t) && Real(n) in t.st.slots
    requires op == OpSeed(n, ty, rights)
          || (op == OpInstallUntyped(n) && ty == Untyped && rights == {READ, WRITE, DUPLICATE, TRANSFER})
          || (op == OpVFrame(n) && ty == Frame && rights == {READ, WRITE, DUPLICATE} && VFrame(t.st, n).1 == Code(OK))
    ensures HistoryInv(Follow(t, op))
  {
    hide Inv, Tree, Below, BornWith, FramesAreRoots, AtHome, Delete, Surviving;
    FollowDelete(t, n);
    DeleteInv(t.st, n);
    StepInv(t.st, op);
    SameNextOid(t.st, n);
    Slim(t.st);
    HomesAfterSeed(t, op, n, ty, rights);
    assert Inherited(t, op) + {t.st.nextOid} == {t.st.nextOid};
    var t1, t' := AfterDelete(t, n), Follow(t, op);
    PlantHistory(t1, t', Real(n), t.st.nextOid, rights);
  }

  lemma HomesAfterSeed(t: Tracked, op: Op, n: nat, ty: ObjType, rights: Rights)
    requires HistoryInv(t) && Real(n) in t.st.slots && (op.OpSeed? || op.OpInstallUntyped? || op.OpVFrame?)
    ensures Surviving(t.home, Seed(t.st, n, ty, rights).0.slots, op, true) == AfterDelete(t, n).home
  {
    hide Inv, Tree, Below, BornWith, FramesAreRoots, AtHome, Delete;
    DeleteInv(t.st, n);
    Slim(t.st);
    SameNextOid(t.st, n);
    var m1, m' := Delete(t.st, n).0.slots, Seed(t.st, n, ty, rights).0.slots;
    forall u | u in t.home ensures Stays(t.home[u], u, m', op, true) <==> Stays(t.home[u], u, m1, OpDelete(n), true) {}
  }

  lemma SameNextOid(st: State, n: nat)
    ensures Delete(st, n).0.nextOid == st.nextOid && Delete(st, n).0.frames == st.frames
    ensures Delete(st, n).0.objs.Keys == st.objs.Keys && Delete(st, n).0.slots.Keys == st.slots.Keys
  {}

  lemma FollowRevoke(t: Tracked, n: nat, op: Op)
    requires HistoryInv(t) && Occupied(t.st.slots, Real(n)) && (op == OpRevoke(n) || (op == OpSyscallRevoke(n) && n != 0))
    ensures HistoryInv(Follow(t, op))
  {
    hide Inv, Tree, Below, BornWith, FramesAreRoots, AtHome, Theory.Revoke;
    RevokeInv(t.st, n);
    Slim(t.st);
    RevokeThins(t.st.slots, Real(n));
    ThinHistory(t, Step(t.st, op).0, op, Step(t.st, op).1 == Code(OK));
  }

  /** Refusals, signals, polls and resets leave every slot as it was. */
  lemma FollowSame(t: Tracked, op: Op)
    requires HistoryInv(t) && Step(t.st, op).0.slots == t.st.slots && Step(t.st, op).0.nextOid == t.st.nextOid
    requires Step(t.st, op).0.frames == t.st.frames && Step(t.st, op).0.objs.Keys == t.st.objs.Keys
    requires !(op.OpMove? || op.OpRotate?) || Step(t.st, op).1 != Code(OK)
    ensures HistoryInv(Follow(t, op))
  {
    hide Inv, Tree, Below, BornWith, FramesAreRoots, AtHome;
    StepInv(t.st, op);
    SameThins(t.st.slots, t.st.slots);
    ThinHistory(t, Step(t.st, op).0, op, Step(t.st, op).1 == Code(OK));
  }

  /** Hanging a leaf loses no first capability and moves none. */
  lemma AttachHomes(t: Tracked, m': Slots, op: Op, moved: bool, x: SlotId, o: nat, rights: Rights, badge: int, p: SlotId)
    requires AtHome(t) && Occupied(t.st.slots, p) && x != p && (x in t.st.slots ==> t.st.slots[x].obj.None?)
    requires m' == Theory.Attach(t.st.slots, x, o, rights, badge, p)
    requires forall y :: Destination(y, op, moved) == y
    ensures Surviving(t.home, m', op, moved) == t.home
    ensures forall u :: u in t.home ==> Occupied(m', t.home[u]) && m'[t.home[u]].obj == Some(u)
                                        && m'[t.home[u]].parent == t.st.slots[t.home[u]].parent
  {
    hide Destination;
    forall u | u in t.home
      ensures Occupied(m', t.home[u]) && m'[t.home[u]].obj == Some(u)
              && m'[t.home[u]].parent == t.st.slots[t.home[u]].parent
    {
      assert t.home[u] != x;
    }
  }

  /** One more capability to an object that has a history. */
  lemma CopyHistory(t: Tracked, st': State, op: Op, moved: bool, x: SlotId, o: nat, rights: Rights, badge: int, p: SlotId)
    requires HistoryInv(t) && Inv(st') && CanAttach(t.st.slots, x, p)
    requires st'.slots == Theory.Attach(t.st.slots, x, o, rights, badge, p)
    requires st'.frames == t.st.frames && st'.objs.Keys == t.st.objs.Keys
    requires forall y :: Destination(y, op, moved) == y
    requires o in t.birth && o in t.lineage && rights <= t.birth[o]
    requires forall u :: u in t.lineage[o] && u in t.home ==> AtOrBelow(t.st.slots, t.home[u], p)
    ensures HistoryInv(Tracked(st', t.birth, t.lineage, Surviving(t.home, st'.slots, op, moved)))
  {
    hide Inv, Tree, Below, BornWith, AtOrBelow;
    AttachHomes(t, st'.slots, op, moved, x, o, rights, badge, p);
    var t' := Tracked(st', t.birth, t.lineage, t.home);
    LeafHistory(t, t', x, o, rights, badge, p);
  }

  /** The first capabilities an object descends from are at or above each of its slots. */
  lemma LineageBelow(t: Tracked, s: SlotId)
    requires HistoryInv(t) && Occupied(t.st.slots, s)
    ensures var o := t.st.slots[s].obj.value;
            && o in t.birth && o in t.lineage && t.st.slots[s].rights <= t.birth[o]
            && forall u :: u in t.lineage[o] && u in t.home ==> AtOrBelow(t.st.slots, t.home[u], s)
  {
    ObjectsTracked(t, s);
  }

  lemma FollowMint(t: Tracked, op: Op, src: nat, dst: nat, rights: Rights, badge: int)
    requires HistoryInv(t) && Mint(t.st, src, dst, rights, badge).1 == Code(OK)
    requires op == OpMint(src, dst, rights, badge) || (op == OpSyscallMint(src, dst, rights, badge) && src != 0 && dst != 0)
    ensures HistoryInv(Follow(t, op))
  {
    hide Inv, Tree, BornWith, Below, FramesAreRoots, AtHome, AtOrBelow;
    var s := t.st.slots[Real(src)];
    MintInv(t.st, src, dst, rights, badge);
    Slim(t.st);
    LineageBelow(t, Real(src));
    CopyHistory(t, Mint(t.st, src, dst, rights, badge).0, op, true, Real(dst), s.obj.value, s.rights * rights,
                if badge == 0 then s.badge else badge, Real(src));
  }

  /** What a successful map does to the slots. */
  lemma VMapSlots(st: State, n: nat, va: int, space: nat)
    requires Inv(st) && VMap(st, n, va, space).1 == Code(OK)
    ensures var st' := VMap(st, n, va, space).0;
            && Occupied(st.slots, Real(n)) && st.slots[Real(n)].obj.value in st.frames
            && st'.objs == st.objs && st'.frames == st.frames && st'.nextOid == st.nextOid
            && var s := st.slots[Real(n)];
               var p := if s.parent.Some? then s.parent.value else Real(n);
               st'.slots == st.slots
               || exists x :: CanAttach(st.slots, x, p)
                    && st'.slots == Theory.Attach(st.slots, x, s.obj.value, s.rights, s.badge, p)
  {
    hide Tree, Edges, Live, MappingAuthority;
    var s := st.slots[Real(n)];
    var f, k := FrameIndex(st.frames, s.obj.value).value, space % st.cfg.nspaces;
    if !Occupied(st.slots, MapCap(f, k)) {
      GrantAttach(st, n, f, k, if s.parent.Some? then s.parent.value else Real(n));
    }
  }

  lemma FollowVMap(t: Tracked, n: nat, va: int, space: nat)
    requires HistoryInv(t) && VMap(t.st, n, va, space).1 == Code(OK)
    ensures HistoryInv(Follow(t, OpVMap(n, va, space)))
  {
    hide Inv, Tree, BornWith, Below, AtOrBelow, FramesAreRoots, AtHome, VMap;
    VMapInv(t.st, n, va, space);
    VMapSlots(t.st, n, va, space);
    var m, s, op := t.st.slots, t.st.slots[Real(n)], OpVMap(n, va, space);
    var st' := VMap(t.st, n, va, space).0;
    if st'.slots == m {
      SameThins(m, m);
      ThinHistory(t, st', op, true);
    } else {
      var p := if s.parent.Some? then s.parent.value else Real(n);
      var x :| CanAttach(m, x, p) && st'.slots == Theory.Attach(m, x, s.obj.value, s.rights, s.badge, p);
      LineageBelow(t, Real(n));
      FrameAbove(t, Real(n), p);
      CopyHistory(t, st', op, true, x, s.obj.value, s.rights, s.badge, p);
    }
  }

  /** The first capability to a mapped frame is at or above the slot its mapping capability hangs from. */
  lemma FrameAbove(t: Tracked, s: SlotId, p: SlotId)
    requires HistoryInv(t) && Occupied(t.st.slots, s) && t.st.slots[s].obj.value in t.st.frames
    requires p == if t.st.slots[s].parent.Some? then t.st.slots[s].parent.value else s
    ensures t.st.slots[s].obj.value in t.lineage
    ensures forall u :: u in t.lineage[t.st.slots[s].obj.value] && u in t.home ==> AtOrBelow(t.st.slots, t.home[u], p)
  {
    hide Inv, BornWith;
    LineageBelow(t, s);
    var o := t.st.slots[s].obj.value;
    if o in t.home { AncUnfold(ParentsOf(t.st.slots), t.home[o], s); }
  }

  /** What a successful unmap does to the slots. */
  lemma VUnmapSlots(st: State, f: nat, va: int, space: nat)
    requires Inv(st) && VUnmap(st, f, va, space).1 == Code(OK)
    ensures var st' := VUnmap(st, f, va, space).0;
            && st'.objs.Keys == st.objs.Keys && st'.frames == st.frames && st'.nextOid == st.nextOid
            && (st'.slots == st.slots || exists mc :: mc in st.slots && st'.slots == Theory.Delete(st.slots, mc))
  {
    hide Tree, Edges, Live, MappingAuthority, Theory.Delete;
  }

  lemma FollowVUnmap(t: Tracked, f: nat, va: int, space: nat)
    requires HistoryInv(t) && VUnmap(t.st, f, va, space).1 == Code(OK)
    ensures HistoryInv(Follow(t, OpVUnmap(f, va, space)))
  {
    hide Inv, Tree, BornWith, Below, FramesAreRoots, AtHome, Theory.Delete, VUnmap;
    var m, st' := t.st.slots, VUnmap(t.st, f, va, space).0;
    VUnmapInv(t.st, f, va, space);
    VUnmapSlots(t.st, f, va, space);
    Slim(t.st);
    if st'.slots == m {
      SameThins(m, m);
    } else {
      var mc :| mc in m && st'.slots == Theory.Delete(m, mc);
      DeleteThins(m, mc);
    }
    ThinHistory(t, st', OpVUnmap(f, va, space), true);
  }

  lemma FollowRetype(t: Tracked, ut: nat, ty: ObjType, dst: nat)
    requires HistoryInv(t) && Retype(t.st, ut, ty, dst).1 == Code(OK)
    ensures HistoryInv(Follow(t, OpRetype(ut, ty, dst)))
  {
    hide Inv, Tree, BornWith, Below, AtOrBelow, FramesAreRoots, AtHome;
    var o, op := t.st.nextOid, OpRetype(ut, ty, dst);
    var t' := Follow(t, op);
    RetypeInv(t.st, ut, ty, dst);
    Slim(t.st);
    LineageBelow(t, Real(ut));
    var rights := BirthRights(ty);
    assert t.lineage[t.st.slots[Real(ut)].obj.value] == Inherited(t, op);
    RetypeHomes(t, t', op, Real(dst), o, rights, Real(ut));
    LeafHistory(t, t', Real(dst), o, rights, 0, Real(ut));
  }

  /** Carving a new object from an Untyped extends the history by that object. */
  lemma RetypeHomes(t: Tracked, t': Tracked, op: Op, x: SlotId, o: nat, rights: Rights, p: SlotId)
    requires HistoryInv(t) && CanAttach(t.st.slots, x, p) && x.Real? && o !in t.st.objs
    requires t.st.slots[p].obj.value in t.lineage
    requires t'.st.slots == Theory.Attach(t.st.slots, x, o, rights, 0, p)
    requires t'.birth == t.birth[o := rights] && t'.lineage == t.lineage[o := t.lineage[t.st.slots[p].obj.value] + {o}]
    requires t'.home == Surviving(t.home, t'.st.slots, op, true)[o := x] && t'.st.frames == t.st.frames
    requires forall y :: Destination(y, op, true) == y
    ensures AtHome(t') && FramesAreRoots(t') && Extends(t, t', x) && t'.home == t.home[o := x]
  {
    hide Inv, Tree, BornWith, Below, Surviving, Destination;
    FramesTracked(t);
    AttachHomes(t, t'.st.slots, op, true, x, o, rights, 0, p);
  }

  /** Every operation keeps the history's invariant. */
  lemma FollowInv(t: Tracked, op: Op)
    requires HistoryInv(t)
    ensures HistoryInv(Follow(t, op))
  {
    hide Tree, Edges, Live, FrameTable, MappingAuthority, Numbered, BornWith, Below, FramesAreRoots, AtHome;
    var (st', a) := Step(t.st, op);
    if st' == t.st && (a != Code(OK) || !(op.OpMove? || op.OpRotate?)) {
      FollowSame(t, op);
    } else {
      match op
      case OpSeed(n, ty, r) => FollowSeed(t, op, n, ty, r);
      case OpInstallUntyped(n) => FollowSeed(t, op, n, Untyped, {READ, WRITE, DUPLICATE, TRANSFER});
      case OpRetype(u, ty, d) => FollowRetype(t, u, ty, d);
      case OpMint(s, d, r, b) => FollowMint(t, op, s, d, r, b);
      case OpSyscallMint(s, d, r, b) => FollowMint(t, op, s, d, r, b);
      case OpMove(s, d) => FollowMove(t, s, d);
      case OpRotate(d, p, s) => FollowRotate(t, d, p, s);
      case OpDelete(n) => FollowDelete(t, n);
      case OpRevoke(n) => FollowRevoke(t, n, op);
      case OpSyscallRevoke(n) => FollowRevoke(t, n, op);
      case OpUtReset(n) =>
      case OpSignal(n, p) => FollowSame(t, op);
      case OpPoll(n) => FollowSame(t, op);
      case OpVFrame(n) => FollowSeed(t, op, n, Frame, {READ, WRITE, DUPLICATE});
      case OpVMap(n, va, k) => FollowVMap(t, n, va, k);
      case OpVUnmap(f, va, k) => FollowVUnmap(t, f, va, k);
    }
  }

  /** The history of a whole run. */
  ghost function Chronicle(cfg: Config, ops: seq<Op>): (t: Tracked)
    requires 0 < cfg.nspaces
    ensures HistoryInv(t)
  {
    if ops == [] then
      NoHistoryInv(cfg);
      NoHistory(cfg)
    else
      var i := |ops| - 1;
      FollowInv(Chronicle(cfg, ops[..i]), ops[i]);
      Follow(Chronicle(cfg, ops[..i]), ops[i])
  }

  // ── what a run can never do ────────────────────────────────────────────────

  /** The history is of the run itself. */
  lemma {:induction false} ChronicleOfRun(cfg: Config, ops: seq<Op>)
    requires 0 < cfg.nspaces
    ensures Inv(Model.Initial(cfg)) && Chronicle(cfg, ops).st == Runs.Run(Model.Initial(cfg), ops)
  {
    Model.InitialInv(cfg);
    if ops != [] { ChronicleOfRun(cfg, ops[..|ops| - 1]); }
  }

  /** In every run, and after any deletions, a slot holds only rights its object was born with. */
  lemma NoRightBeyondBirth(cfg: Config, ops: seq<Op>, s: SlotId)
    requires 0 < cfg.nspaces && Occupied(Chronicle(cfg, ops).st.slots, s)
    ensures var t := Chronicle(cfg, ops);
            var o := t.st.slots[s].obj.value;
            o in t.birth && t.st.slots[s].rights <= t.birth[o]
  {
    ObjectsTracked(Chronicle(cfg, ops), s);
  }

  /** Everything carved from `u`, directly or through other Untypeds and copies, is dead. */
  ghost predicate NothingCarvedAlive(t: Tracked, u: nat) {
    forall o :: o in t.lineage && o in t.st.objs && u in t.lineage[o] && o != u ==> !t.st.objs[o].alive
  }

  lemma AncestorHasChildren(m: Slots, h: SlotId, s: SlotId)
    requires Tree(m) && Ancestor(m, h, s)
    ensures h in m && m[h].children != []
  {
    AncIsParent(ParentsOf(m), h, s);
    var c :| c in ParentsOf(m) && ParentsOf(m)[c] == h;
    assert ChildOf(m, c, h) && Lists(m, h, c);
  }

  /** In every run: if the capability an object was installed with is still in place and has no
      children, nothing carved from that object is alive. */
  lemma ChildlessMeansReclaimed(t: Tracked, u: nat)
    requires HistoryInv(t) && u in t.home && t.st.slots[t.home[u]].children == []
    ensures NothingCarvedAlive(t, u)
  {
    var m, h := t.st.slots, t.home[u];
    forall s | Occupied(m, s) && u in t.lineage[m[s].obj.value] ensures s == h {
      assert AtOrBelow(m, h, s);
      if Ancestor(m, h, s) { AncestorHasChildren(m, h, s); }
    }
  }

  /** O6 over whole runs: a reset that is granted on the capability an Untyped was installed with
      frees memory nothing alive was carved from. */
  lemma ResetIsSafe(cfg: Config, ops: seq<Op>, n: nat, u: nat)
    requires 0 < cfg.nspaces && u in Chronicle(cfg, ops).home && Chronicle(cfg, ops).home[u] == Real(n)
    requires UtReset(Chronicle(cfg, ops).st, n) == Code(OK)
    ensures NothingCarvedAlive(Chronicle(cfg, ops), u)
  {
    ChildlessMeansReclaimed(Chronicle(cfg, ops), u);
  }

  /** One revoke on that capability is enough: it stays in place, everything carved is dead, and
      the reset is granted. */
  lemma RevokeReclaims(cfg: Config, ops: seq<Op>, n: nat, u: nat)
    requires 0 < cfg.nspaces && u in Chronicle(cfg, ops).home && Chronicle(cfg, ops).home[u] == Real(n)
    requires Chronicle(cfg, ops).st.objs[u].typ == Untyped
    ensures var t := Chronicle(cfg, ops + [OpRevoke(n)]);
            && u in t.home && t.home[u] == Real(n)
            && NothingCarvedAlive(t, u)
            && UtReset(t.st, n) == Code(OK)
  {
    hide HistoryInv, Follow, NothingCarvedAlive, UtReset;
    assert (ops + [OpRevoke(n)])[..|ops|] == ops;
    RevokeAtHome(Chronicle(cfg, ops), n, u);
    ChildlessMeansReclaimed(Chronicle(cfg, ops + [OpRevoke(n)]), u);
  }

  lemma RevokeAtHome(t: Tracked, n: nat, u: nat)
    requires HistoryInv(t) && u in t.home && t.home[u] == Real(n)
    ensures var t' := Follow(t, OpRevoke(n));
            && HistoryInv(t') && u in t'.home && t'.home[u] == Real(n)
            && Real(n) in t'.st.slots && t'.st.slots[Real(n)].children == []
            && (t.st.objs[u].typ == Untyped ==> UtReset(t'.st, n) == Code(OK))
  {
    hide Inv, Tree, Below, BornWith, FramesAreRoots, Revoke, UtReset;
    FollowInv(t, OpRevoke(n));
    RevokeKeepsRoot(t.st, n);
  }

  lemma RevokeKeepsRoot(st: State, n: nat)
    requires Inv(st) && Occupied(st.slots, Real(n))
    ensures var st' := Revoke(st, n).0;
            && Inv(st') && st'.nextOid == st.nextOid
            && Real(n) in st'.slots && st'.slots[Real(n)] == st.slots[Real(n)].(children := [])
            && (st.objs[st.slots[Real(n)].obj.value].typ == Untyped ==> UtReset(st', n) == Code(OK))
  {
    hide Tree, Edges, Live, MappingAuthority, FrameTable;
    RevokeInv(st, n);
    RevokeExact(st, n);
  }

  /** The condition on the first capability cannot be dropped. From any state: copy an Untyped from
      `i` to `j`, carve an endpoint through `i` into `k`, delete `i`. The copy has no children, so a
      reset on it is granted, and the endpoint is alive. */
  lemma ResetThroughCopyIsUnsafe(st: State, i: nat, j: nat, k: nat)
    requires Inv(st) && i != 0 && j != 0 && k != 0 && j != k
    requires Occupied(st.slots, Real(i)) && st.objs[st.slots[Real(i)].obj.value].typ == Untyped
    requires {WRITE, DUPLICATE} <= st.slots[Real(i)].rights
    requires Real(j) in st.slots && st.slots[Real(j)].obj.None? && Real(k) in st.slots && st.slots[Real(k)].obj.None?
    ensures var st1 := Mint(st, i, j, {DUPLICATE}, 0).0;
            && Inv(st1)
            && var st2 := Retype(st1, i, Endpoint, k).0;
               var st3 := Delete(st2, i).0;
               && Inv(st3) && UtReset(st3, j) == Code(OK)
               && st3.slots[Real(j)].obj == st.slots[Real(i)].obj
               && st.nextOid in st3.objs && st3.objs[st.nextOid].alive
  {
    hide Tree, Edges, Live, FrameTable, MappingAuthority;
    MintInv(st, i, j, {DUPLICATE}, 0);
    assert DUPLICATE in st.slots[Real(i)].rights * {DUPLICATE};
    var st1 := Mint(st, i, j, {DUPLICATE}, 0).0;
    var s := st.slots[Real(i)];
    assert st1.slots[Real(i)] == s.(children := s.children + [Real(j)]);
    assert st1.slots[Real(j)] == Slot(s.obj, s.rights * {DUPLICATE}, s.badge, Some(Real(i)), []);
    RetypeInv(st1, i, Endpoint, k);
    var st2 := Retype(st1, i, Endpoint, k).0;
    assert st2.slots[Real(k)].obj == Some(st.nextOid);
    DeleteInv(st2, i);
    var m := Theory.Delete(st2.slots, Real(i));
    assert Real(j) in st2.slots[Real(i)].children && Real(k) in st2.slots[Real(i)].children;
    assert m[Real(j)].children == [] && m[Real(k)].obj == Some(st.nextOid);
  }
}
