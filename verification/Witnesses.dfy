/** Runs that show a condition of a theorem is needed: short sequences of operations from a fresh
    model, on any configuration with room for the slots they name.
 */
module Witnesses {
  import opened Wrappers
  import opened Forest
  import opened Authority
  import Theory
  import opened Operations
  import opened Preservation
  import opened Ancestry
  import opened Noninterference
  import Model
  import opened Runs

  ghost predicate Roomy(cfg: Config) {
    0 < cfg.ncnodes && 5 <= cfg.spc && 0 < cfg.nframes && 0 < cfg.nspaces
  }

  lemma RootSlots(cfg: Config)
    requires Roomy(cfg)
    ensures cfg.spc <= cfg.ncnodes * cfg.spc
  {}

  /** Slots 1 to 4 of a state under construction. */
  ghost predicate Holds(st: State, s1: Slot, s2: Slot, s3: Slot, s4: Slot) {
    && Real(1) in st.slots && Real(2) in st.slots && Real(3) in st.slots && Real(4) in st.slots
    && st.slots[Real(1)] == s1 && st.slots[Real(2)] == s2 && st.slots[Real(3)] == s3 && st.slots[Real(4)] == s4
  }

  lemma Fresh(cfg: Config) returns (st: State)
    requires Roomy(cfg)
    ensures Reachable(st) && Inv(st) && st.cfg == cfg && Holds(st, EMPTY, EMPTY, EMPTY, EMPTY)
    ensures st.objs == map[] && st.nextOid == 1 && st.frames == [] && st.maps == map[] && MapCap(0, 0) !in st.slots
  {
    RootSlots(cfg);
    InitialReachable(cfg);
    st := Model.Initial(cfg);
    ReachableInv(st);
  }

  /** One more operation of a run. */
  lemma Take(st: State, op: Op) returns (st': State)
    requires Reachable(st) && Inv(st)
    ensures st' == Step(st, op).0 && Reachable(st') && Inv(st')
  {
    hide Inv, Step, Reachable;
    StepReachable(st, op);
    st' := Step(st, op).0;
    ReachableInv(st');
  }

  lemma MintOk(st: State, src: nat, dst: nat, req: Rights)
    requires Inv(st) && Occupied(st.slots, Real(src)) && Real(dst) in st.slots && st.slots[Real(dst)] == EMPTY
    requires DUPLICATE in st.slots[Real(src)].rights && st.slots[Real(src)].rights * req != {}
    ensures Step(st, OpMint(src, dst, req, 0)) ==
            (st.(slots := Theory.Derive(st.slots, Real(src), Real(dst), req, 0)), Code(OK))
  {
    hide Tree, Edges, Live, FrameTable, MappingAuthority;
    var rights := st.slots[Real(src)].rights;
    assert rights * {DUPLICATE} == {DUPLICATE};
  }

  // ── a frame mapped twice in one space ──────────────────────────────────────

  const FRAME_RIGHTS: Rights := {READ, WRITE, DUPLICATE}

  lemma FrameMade(cfg: Config) returns (st: State)
    requires Roomy(cfg)
    ensures Reachable(st) && Inv(st) && st.cfg == cfg && st.frames == [1] && st.maps == map[0 := {}]
    ensures st.objs == map[1 := Obj(Frame, 0, true)] && MapCap(0, 0) !in st.slots
    ensures Holds(st, Slot(Some(1), FRAME_RIGHTS, 0, None, []), EMPTY, EMPTY, EMPTY)
  {
    hide Inv, Reachable;
    RootSlots(cfg);
    var st0 := Fresh(cfg);
    st := Take(st0, OpVFrame(1));
  }

  /** `vframe 1; mint 1 2; mint 2 3`: a chain of three capabilities to one frame. */
  lemma FrameChain(cfg: Config) returns (st: State)
    requires Roomy(cfg)
    ensures Reachable(st) && Inv(st) && st.cfg == cfg && st.frames == [1] && st.maps == map[0 := {}]
    ensures st.objs == map[1 := Obj(Frame, 0, true)] && MapCap(0, 0) !in st.slots
    ensures Holds(st, Slot(Some(1), FRAME_RIGHTS, 0, None, [Real(2)]), Slot(Some(1), FRAME_RIGHTS, 0, Some(Real(1)), [Real(3)]),
                  Slot(Some(1), FRAME_RIGHTS, 0, Some(Real(2)), []), EMPTY)
  {
    hide Inv, Reachable, Step;
    var st1 := FrameMade(cfg);
    assert FRAME_RIGHTS * FRAME_RIGHTS == FRAME_RIGHTS && DUPLICATE in FRAME_RIGHTS;
    MintOk(st1, 1, 2, FRAME_RIGHTS);
    var st2 := Take(st1, OpMint(1, 2, FRAME_RIGHTS, 0));
    assert Holds(st2, Slot(Some(1), FRAME_RIGHTS, 0, None, [Real(2)]), Slot(Some(1), FRAME_RIGHTS, 0, Some(Real(1)), []), EMPTY, EMPTY);
    MintOk(st2, 2, 3, FRAME_RIGHTS);
    st := Take(st2, OpMint(2, 3, FRAME_RIGHTS, 0));
  }

  /** `vmap(3, va0, 0); vmap(2, va1, 0); revoke 2` on that chain takes the page slot 2 was mapped
      through, although slot 2 has a parent. */
  lemma HolderLosesPage(cfg: Config, va0: int, va1: int)
    requires Roomy(cfg) && va0 != va1
    ensures exists st: State :: LosesPage(st, va0, va1)
  {
    hide Inv, Reachable, Revoke;
    RootSlots(cfg);
    var st := FrameChain(cfg);
    ChainMaps(st, va0);
    SecondMappingTaken(st, 2, 3, va0, va1, 0);
    assert LosesPage(st, va0, va1);
  }

  lemma ChainMaps(st: State, va: int)
    requires Inv(st) && st.frames == [1] && st.maps == map[0 := {}] && Real(3) in st.slots && st.slots[Real(3)].obj == Some(1)
    requires 1 in st.objs && st.objs[1].typ == Frame
    ensures FrameIndex(st.frames, 1) == Some(0) && VMap(st, 3, va, 0).1 == Code(OK) && 0 < st.cfg.nspaces
  {
    hide Tree, Edges, Live, MappingAuthority, Numbered;
    assert st.frames[..0] == [];
  }

  ghost predicate LosesPage(st: State, va0: int, va1: int) {
    && Reachable(st) && Inv(st)
    && Real(2) in st.slots && st.slots[Real(2)].parent.Some?
    && VMap(st, 3, va0, 0).1 == Code(OK)
    && var st1 := VMap(st, 3, va0, 0).0;
       Inv(st1) && VMap(st1, 2, va1, 0).1 == Code(OK)
       && var maps := Revoke(VMap(st1, 2, va1, 0).0, 2).0.maps;
          0 in maps && (0, va1) !in maps[0]
  }

  // ── two subjects and one notification ──────────────────────────────────────

  const NTFN_RIGHTS: Rights := {READ, WRITE, WAIT, DUPLICATE, TRANSFER}
  const UT_RIGHTS: Rights := {READ, WRITE, DUPLICATE, TRANSFER}

  lemma RetypeOk(st: State, ut: nat, t: ObjType, dst: nat)
    requires Inv(st) && ut != 0 && dst != 0 && Occupied(st.slots, Real(ut)) && WRITE in st.slots[Real(ut)].rights
    requires st.slots[Real(ut)].obj.value in st.objs && st.objs[st.slots[Real(ut)].obj.value].typ == Untyped
    requires Real(dst) in st.slots && st.slots[Real(dst)] == EMPTY
    ensures Step(st, OpRetype(ut, t, dst)) ==
            (st.(slots := Theory.Attach(st.slots, Real(dst), st.nextOid, BirthRights(t), 0, Real(ut)),
                 objs := st.objs[st.nextOid := Obj(t, 0, true)], nextOid := st.nextOid + 1), Code(OK))
  {
    hide Tree, Edges, Live, FrameTable, MappingAuthority;
  }

  /** `ut 1; retype 1 Notification 2; mint 2 3; mint 2 4`: one sender and one receiver. */
  lemma Shared(cfg: Config) returns (st: State)
    requires Roomy(cfg)
    ensures Reachable(st) && Inv(st) && st.cfg == cfg && 2 in st.objs && st.objs[2].typ == Notification && st.objs[2].bits == 0
    ensures Holds(st, Slot(Some(1), UT_RIGHTS, 0, None, [Real(2)]), Slot(Some(2), NTFN_RIGHTS, 0, Some(Real(1)), [Real(3), Real(4)]),
                  Slot(Some(2), {WRITE, DUPLICATE}, 0, Some(Real(2)), []), Slot(Some(2), {WAIT}, 0, Some(Real(2)), []))
  {
    hide Inv, Reachable;
    var st0 := Fresh(cfg);
    var st1 := Take(st0, OpInstallUntyped(1));
    assert Holds(st1, Slot(Some(1), UT_RIGHTS, 0, None, []), EMPTY, EMPTY, EMPTY);
    st := Channel(st1);
  }

  lemma Channel(st: State) returns (st': State)
    requires Reachable(st) && Inv(st) && st.nextOid == 2 && st.objs == map[1 := Obj(Untyped, 0, true)]
    requires Holds(st, Slot(Some(1), UT_RIGHTS, 0, None, []), EMPTY, EMPTY, EMPTY)
    ensures Reachable(st') && Inv(st') && st'.cfg == st.cfg && 2 in st'.objs && st'.objs[2].typ == Notification && st'.objs[2].bits == 0
    ensures Holds(st', Slot(Some(1), UT_RIGHTS, 0, None, [Real(2)]), Slot(Some(2), NTFN_RIGHTS, 0, Some(Real(1)), [Real(3), Real(4)]),
                  Slot(Some(2), {WRITE, DUPLICATE}, 0, Some(Real(2)), []), Slot(Some(2), {WAIT}, 0, Some(Real(2)), []))
  {
    hide Inv, Reachable, Step;
    RetypeOk(st, 1, Notification, 2);
    var st2 := Take(st, OpRetype(1, Notification, 2));
    assert Holds(st2, Slot(Some(1), UT_RIGHTS, 0, None, [Real(2)]), Slot(Some(2), NTFN_RIGHTS, 0, Some(Real(1)), []), EMPTY, EMPTY);
    assert NTFN_RIGHTS * {WRITE, DUPLICATE} == {WRITE, DUPLICATE} && NTFN_RIGHTS * {WAIT} == {WAIT};
    assert WRITE in NTFN_RIGHTS * {WRITE, DUPLICATE} && WAIT in NTFN_RIGHTS * {WAIT};
    MintOk(st2, 2, 3, {WRITE, DUPLICATE});
    var st3 := Take(st2, OpMint(2, 3, {WRITE, DUPLICATE}, 0));
    assert Holds(st3, Slot(Some(1), UT_RIGHTS, 0, None, [Real(2)]), Slot(Some(2), NTFN_RIGHTS, 0, Some(Real(1)), [Real(3)]),
                 Slot(Some(2), {WRITE, DUPLICATE}, 0, Some(Real(2)), []), EMPTY);
    MintOk(st3, 2, 4, {WAIT});
    st' := Take(st3, OpMint(2, 4, {WAIT}, 0));
  }

  /** `delete 2; delete 1` makes roots of both. */
  lemma TwoRoots(cfg: Config) returns (st: State)
    requires Roomy(cfg)
    ensures Reachable(st) && Inv(st) && st.cfg == cfg && 2 in st.objs && st.objs[2].typ == Notification && st.objs[2].bits == 0
    ensures Holds(st, EMPTY, EMPTY, Slot(Some(2), {WRITE, DUPLICATE}, 0, None, []), Slot(Some(2), {WAIT}, 0, None, []))
  {
    hide Inv, Reachable;
    var st1 := Shared(cfg);
    var st2 := Take(st1, OpDelete(2));
    assert Holds(st2, Slot(Some(1), UT_RIGHTS, 0, None, [Real(3), Real(4)]), EMPTY,
                 Slot(Some(2), {WRITE, DUPLICATE}, 0, Some(Real(1)), []), Slot(Some(2), {WAIT}, 0, Some(Real(1)), [])) by {
      OnlyChild(Real(2));
    }
    st := Take(st2, OpDelete(1));
  }

  lemma OnlyChild(x: SlotId)
    ensures Theory.Without([x], x) == []
  {
    assert [x][..0] == [];
  }

  lemma ChildlessSubtree(m: Slots, r: SlotId)
    requires Symmetric(m) && r in m && m[r].children == []
    ensures Subtree(m, r) == {r}
  {
    var p := ParentsOf(m);
    forall c ensures !(c in p && p[c] == r) { assert ChildOf(m, c, r) ==> Lists(m, r, c); }
    forall d ensures !Anc(p, r, d) {
      if Anc(p, r, d) { AncIsParent(p, r, d); }
    }
  }

  /** Every hypothesis of non-interference but one. */
  ghost predicate SharingSubjects(st: State, a: nat, b: nat, sched: seq<Turn>) {
    && Reachable(st) && Inv(st) && Occupied(st.slots, Real(a)) && Occupied(st.slots, Real(b))
    && st.slots[Real(a)].parent.None? && st.slots[Real(b)].parent.None?
    && Subtree(st.slots, Real(a)) !! Subtree(st.slots, Real(b))
    && Confines(sched, Subtree(st.slots, Real(a)), Subtree(st.slots, Real(b)))
    && !DisjointObjects(st.slots, Subtree(st.slots, Real(a)), Subtree(st.slots, Real(b)))
  }

  /** Object-disjointness is needed: on every configuration with room, a run of six operations leads to
      two roots with disjoint subtrees that share a notification, and what B signals A observes. */
  lemma DisjointnessNeeded(cfg: Config)
    requires Roomy(cfg)
    ensures exists st, sched :: SharingSubjects(st, 4, 3, sched) && Observations(st, sched) != Observations(st, Alone(sched))
  {
    hide Inv, Reachable, Observations, Alone, Resolve;
    var st := TwoRoots(cfg);
    var sched := [Turn(false, OpSignal(3, 1)), Turn(true, OpPoll(4))];
    BothResolve(st);
    RootsShare(st, sched);
    SharedNotificationInterferes(st, 4, 3);
  }

  lemma BothResolve(st: State)
    requires Inv(st) && Roomy(st.cfg) && 2 in st.objs && st.objs[2].typ == Notification
    requires Holds(st, EMPTY, EMPTY, Slot(Some(2), {WRITE, DUPLICATE}, 0, None, []), Slot(Some(2), {WAIT}, 0, None, []))
    ensures Resolve(st, 4, WAIT) == Resolved(2) && Resolve(st, 3, WRITE) == Resolved(2)
  {
    hide Inv;
  }

  lemma RootsShare(st: State, sched: seq<Turn>)
    requires Reachable(st) && Inv(st)
    requires Holds(st, EMPTY, EMPTY, Slot(Some(2), {WRITE, DUPLICATE}, 0, None, []), Slot(Some(2), {WAIT}, 0, None, []))
    requires sched == [Turn(false, OpSignal(3, 1)), Turn(true, OpPoll(4))]
    ensures SharingSubjects(st, 4, 3, sched)
  {
    hide Inv, Reachable, Subtree;
    InvSymmetric(st);
    ChildlessSubtree(st.slots, Real(3));
    ChildlessSubtree(st.slots, Real(4));
    assert Names(st.slots, {Real(4)}, 2) && Names(st.slots, {Real(3)}, 2);
  }
}
