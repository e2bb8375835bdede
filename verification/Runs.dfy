/** Whole runs: what holds in every state any sequence of operations can reach. */
module Runs {
  import opened Wrappers
  import opened Forest
  import opened Authority
  import opened Operations
  import opened Preservation
  import Model

  /** The state after a list of operations, refused ones included. */
  ghost function Run(st: State, ops: seq<Op>): (r: State)
    requires Inv(st)
    ensures Inv(r)
  {
    if ops == [] then st
    else
      var i := |ops| - 1;
      StepInv(Run(st, ops[..i]), ops[i]);
      Step(Run(st, ops[..i]), ops[i]).0
  }

  /** Every state a freshly constructed model can reach. */
  ghost predicate Reachable(st: State) {
    exists cfg: Config, ops: seq<Op> :: ReachedBy(cfg, ops, st)
  }

  ghost predicate ReachedBy(cfg: Config, ops: seq<Op>, st: State) {
    && 0 < cfg.nspaces
    && Inv(Model.Initial(cfg))
    && st == Run(Model.Initial(cfg), ops)
  }

  lemma ReachableInv(st: State)
    requires Reachable(st)
    ensures Inv(st)
  {}

  /** A fresh model has reached its initial state. */
  lemma InitialReachable(cfg: Config)
    requires 0 < cfg.nspaces
    ensures Reachable(Model.Initial(cfg))
  {
    Model.InitialInv(cfg);
    assert ReachedBy(cfg, [], Model.Initial(cfg));
  }

  /** One more operation from a reachable state reaches a reachable state. */
  lemma StepReachable(st: State, op: Op)
    requires Reachable(st)
    ensures Inv(st) && Reachable(Step(st, op).0)
  {
    hide Inv, Step, Model.Initial;
    var cfg: Config, ops: seq<Op> :| ReachedBy(cfg, ops, st);
    assert (ops + [op])[..|ops|] == ops;
    assert ReachedBy(cfg, ops + [op], Step(st, op).0);
  }

  // ── the charter's checks, as the checkers ask them ─────────────────────────

  /** A creation: the parent is an Untyped and the child names something else. */
  ghost predicate Creation(st: State, s: SlotId, p: SlotId)
    requires Occupied(st.slots, s) && Occupied(st.slots, p) && st.slots[p].obj.value in st.objs
  {
    st.objs[st.slots[p].obj.value].typ == Untyped && st.slots[s].obj != st.slots[p].obj
  }

  /** A7: a derived capability's rights are a subset of its parent's, and no parent is empty. */
  ghost predicate RightsMonotone(st: State) {
    forall s, p :: Occupied(st.slots, s) && ChildOf(st.slots, s, p) ==>
      && Occupied(st.slots, p) && st.slots[p].obj.value in st.objs
      && (Creation(st, s, p) || st.slots[s].rights <= st.slots[p].rights)
  }

  /** A8: a badged capability is never re-badged by a derivation. */
  ghost predicate BadgeSealed(st: State) {
    forall s, p :: Occupied(st.slots, s) && ChildOf(st.slots, s, p)
                   && Occupied(st.slots, p) && st.slots[p].obj.value in st.objs ==>
      Creation(st, s, p) || (st.slots[p].badge != 0 ==> st.slots[s].badge == st.slots[p].badge)
  }

  /** A9: from every slot the parent links lead, in finitely many steps, to a slot without a parent,
      and never back to where they started. */
  ghost predicate ReachesRoots(st: State) {
    var p := ParentsOf(st.slots);
    forall s :: s in st.slots ==> !Anc(p, s, s) && ReachesRoot(p, s)
  }

  ghost predicate ReachesRoot(p: Parents, s: SlotId) {
    exists r, k: nat :: Above(p, r, s, k) && r !in p
  }

  /** O2: an edge keeps the object or leaves an Untyped. */
  ghost predicate DerivationSameObject(st: State) {
    forall s, p :: Occupied(st.slots, s) && ChildOf(st.slots, s, p)
                   && Occupied(st.slots, p) && st.slots[p].obj.value in st.objs ==>
      st.slots[s].obj == st.slots[p].obj || st.objs[st.slots[p].obj.value].typ == Untyped
  }

  /** D-13 from the mapping side: every mapped (space, address) is backed by that space's own
      capability to that frame's object, and that capability is in the tree. */
  ghost predicate MappingsBacked(st: State) {
    forall f: nat, pr: (nat, int) :: f in st.maps && pr in st.maps[f] ==>
      && f < |st.frames|
      && var mc := MapCap(f, pr.0);
         && Occupied(st.slots, mc) && st.slots[mc].obj == Some(st.frames[f])
         && forall p :: ChildOf(st.slots, mc, p) ==> Lists(st.slots, p, mc)
  }

  /** A (space, address) belongs to at most one frame. */
  ghost predicate OneOwner(maps: Mappings) {
    forall f, g, pr :: f in maps && g in maps && pr in maps[f] && pr in maps[g] ==> f == g
  }

  /** Walking up from `d` without ever repeating a slot must end at a root. */
  lemma {:induction false} WalkEnds(p: Parents, d: SlotId, seen: set<SlotId>)
    requires Acyclic(p) && seen <= p.Keys
    requires forall x :: x in seen ==> Anc(p, d, x)
    ensures ReachesRoot(p, d)
    decreases |p.Keys - seen|
  {
    if d !in p {
      assert Above(p, d, d, 0);
    } else {
      assert d !in seen;
      assert p.Keys - (seen + {d}) < p.Keys - seen;
      SubsetShrinks(p.Keys - (seen + {d}), p.Keys - seen);
      forall x | x in seen + {d} ensures Anc(p, p[d], x) {
        AncUnfold(p, p[d], d);
        if x != d { AncTransitive(p, p[d], d, x); }
      }
      WalkEnds(p, p[d], seen + {d});
      var r, k: nat :| Above(p, r, p[d], k) && r !in p;
      assert Above(p, r, d, k + 1);
    }
  }

  lemma SubsetShrinks<T>(a: set<T>, b: set<T>)
    requires a < b
    ensures |a| < |b|
  {
    assert b == a + (b - a);
  }

  /** Every check of the charter holds in every reachable state: any depth, any run. */
  lemma ChecksHold(st: State)
    requires Reachable(st)
    ensures RightsMonotone(st) && BadgeSealed(st) && DerivationSameObject(st)
    ensures ReachesRoots(st) && Symmetric(st.slots)
    ensures Live(st.slots, st.objs)
    ensures MappingsBacked(st) && MappingAuthority(st.slots, st.frames, st.maps) && OneOwner(st.maps)
    ensures forall o :: o in st.objs && st.objs[o].bits != 0 ==> st.objs[o].typ == Notification
  {
    ReachableInv(st);
    InvChecks(st);
  }

  lemma InvChecks(st: State)
    requires Inv(st)
    ensures RightsMonotone(st) && BadgeSealed(st) && DerivationSameObject(st)
    ensures ReachesRoots(st) && MappingsBacked(st)
  {
    var m := st.slots;
    forall s, p | Occupied(m, s) && ChildOf(m, s, p)
      ensures Occupied(m, p) && st.slots[p].obj.value in st.objs && EdgeOK(m[s], m[p], st.objs)
    {
      assert Lists(m, p, s);
    }
    forall s | s in m ensures ReachesRoot(ParentsOf(m), s) { WalkEnds(ParentsOf(m), s, {}); }
    forall f: nat, pr: (nat, int) | f in st.maps && pr in st.maps[f] ensures Occupied(m, MapCap(f, pr.0)) {
      assert MapsInto(st.maps, f, pr.0);
    }
  }
}
