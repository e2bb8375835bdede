/** The executable model against the abstract text.

    The abstract text knows only CSpace slots. The model's slots, with the mapping capabilities
    left out, are compared with it slot by slot and in child order; and the two loops the text
    leaves to a fixed point and a walk, the closure and the acyclicity test, are proved exact.
 */
module TheoryCheck {
  import opened Wrappers
  import opened Forest
  import opened Authority
  import Theory
  import Operations
  import opened Preservation
  import opened Runs

  /** The slots the abstract text speaks of. */
  function CSpace(m: Slots): Slots {
    map s | s in m && s.Real? :: m[s]
  }

  lemma {:induction false} CSpaceAbove(st: State, a: SlotId, d: SlotId, k: nat)
    requires Inv(st) && d.Real?
    ensures Above(ParentsOf(CSpace(st.slots)), a, d, k) <==> Above(ParentsOf(st.slots), a, d, k)
    decreases k
  {
    hide Inv;
    var p := ParentsOf(st.slots);
    if k > 0 && d in p {
      ParentIsReal(st, d);
      CSpaceAbove(st, a, p[d], k - 1);
    }
  }

  /** Mapping capabilities are leaves, so leaving them out hides nobody's ancestors. */
  lemma CSpaceAncestors(st: State, a: SlotId, d: SlotId)
    requires Inv(st) && d.Real?
    ensures Ancestor(CSpace(st.slots), a, d) <==> Ancestor(st.slots, a, d)
  {
    hide Inv;
    forall k: nat ensures Above(ParentsOf(CSpace(st.slots)), a, d, k) <==> Above(ParentsOf(st.slots), a, d, k) {
      CSpaceAbove(st, a, d, k);
    }
  }

  /** Mint answers what the text's precondition answers, and derives what it derives. */
  lemma MintRefines(st: State, src: nat, dst: nat, rights: Rights, badge: int)
    requires Inv(st) && Real(src) in st.slots && Real(dst) in st.slots
    ensures var C, (st', a) := CSpace(st.slots), Operations.Mint(st, src, dst, rights, badge);
            && (forall s :: Occupied(C, s) ==> C[s].obj.value in st.objs)
            && a == Code(Theory.CanDerive(C, st.objs, Real(src), Real(dst), rights, badge))
            && CSpace(st'.slots) == if a == Code(OK) then Theory.Derive(C, Real(src), Real(dst), rights, badge) else C
  {
    hide Tree, Edges, Live, FrameTable, MappingAuthority;
  }

  /** Delete reparents exactly as the text does, child order included. */
  lemma DeleteRefines(st: State, n: nat)
    requires Inv(st) && Occupied(st.slots, Real(n))
    ensures CSpace(Operations.Delete(st, n).0.slots) == Theory.Delete(CSpace(st.slots), Real(n))
  {
    hide Tree, Edges, Live, FrameTable, MappingAuthority;
  }

  /** Revoke removes exactly the closure the text computes. */
  lemma RevokeRefines(st: State, n: nat)
    requires Inv(st) && Occupied(st.slots, Real(n))
    ensures CSpace(Operations.Revoke(st, n).0.slots) == Theory.Revoke(CSpace(st.slots), Real(n))
  {
    hide Inv, Ancestor;
    var m := st.slots;
    forall t: SlotId | t.Real? ensures Ancestor(CSpace(m), Real(n), t) <==> Ancestor(m, Real(n), t) {
      CSpaceAncestors(st, Real(n), t);
    }
  }

  // ── the closure, as a fixed point ──────────────────────────────────────────

  /** The transitive closure below `i`, layer by layer; on any slot map, cyclic or not. */
  method Closure(m: Slots, i: SlotId) returns (out: set<SlotId>)
    ensures out == Desc(ParentsOf(m), i)
  {
    hide Anc;
    ghost var p := ParentsOf(m);
    var frontier := {i};
    out := {};
    while frontier != {}
      invariant out <= m.Keys && frontier <= out + {i}
      invariant forall x :: x in out ==> Anc(p, i, x)
      invariant forall y :: y in p && (p[y] == i || p[y] in out) && p[y] !in frontier ==> y in out
      decreases |m.Keys - out| + if frontier != {} then 1 else 0
    {
      var next := set j | j in m && m[j].parent.Some? && m[j].parent.value in frontier && j !in out;
      forall x | x in next ensures Anc(p, i, x) {
        AncUnfold(p, i, x);
      }
      ghost var out0 := out;
      out := out + next;
      frontier := next;
      if next != {} { SubsetShrinks(m.Keys - out, m.Keys - out0); } else { assert out == out0; }
    }
    ClosureDone(p, out, i);
  }

  lemma ClosureDone(p: Parents, out: set<SlotId>, i: SlotId)
    requires forall x :: x in out ==> Anc(p, i, x)
    requires forall y :: y in p && (p[y] == i || p[y] in out) ==> y in out
    ensures out == Desc(p, i)
  {
    hide Anc;
    forall x | Anc(p, i, x) ensures x in out { ClosedContains(p, out, i, x); }
    forall x | x in out ensures x in p { AncUnfold(p, i, x); }
  }

  // ── acyclicity, decided ────────────────────────────────────────────────────

  /** A slot from which the links lead to a slot without a parent is on no cycle. */
  lemma {:induction false} NoCycleBelowRoot(p: Parents, r: SlotId, s: SlotId, n: nat)
    requires r !in p && Above(p, r, s, n)
    ensures !Anc(p, s, s)
    decreases n
  {
    AncUnfold(p, s, s);
    if n > 0 {
      NoCycleBelowRoot(p, r, p[s], n - 1);
      AncUnfold(p, p[s], s);
      if Anc(p, s, p[s]) { AncTransitive(p, p[s], s, p[s]); }
    }
  }

  ghost predicate Dangling(m: Slots) {
    exists s, q :: ChildOf(m, s, q) && q !in m
  }

  /** Follows the parents of `start` until there are none, one repeats, or one is missing. */
  method WalkUp(m: Slots, start: SlotId) returns (ok: bool)
    requires start in m
    ensures ok ==> !Anc(ParentsOf(m), start, start) && ReachesRoot(ParentsOf(m), start)
    ensures ok ==> forall q :: ChildOf(m, start, q) ==> q in m
    ensures !ok ==> !Acyclic(ParentsOf(m)) || Dangling(m)
  {
    ghost var p := ParentsOf(m);
    var seen: set<SlotId> := {};
    var cur := Some(start);
    ghost var n: nat := 0;
    ghost var last := start;
    while cur.Some?
      invariant seen <= m.Keys
      invariant n == 0 ==> cur == Some(start) && seen == {}
      invariant n > 0 ==> Above(p, last, start, n - 1) && last in m && m[last].parent == cur && start in seen
      invariant cur.Some? ==> Above(p, cur.value, start, n)
      invariant cur.Some? ==> forall x :: x in seen ==> Anc(p, cur.value, x)
      invariant n > 0 ==> forall q :: ChildOf(m, start, q) ==> cur == Some(q) || q in seen
      decreases |m.Keys - seen|, cur
    {
      var c := cur.value;
      if c in seen {
        assert Anc(p, c, c);
        return false;
      }
      if c !in m {
        assert ChildOf(m, last, c);
        return false;
      }
      ghost var seen0 := seen;
      seen := seen + {c};
      SubsetShrinks(m.Keys - seen, m.Keys - seen0);
      cur := m[c].parent;
      ExtendWalk(p, m, start, c, seen0, n);
      last, n := c, n + 1;
    }
    NoCycleBelowRoot(p, last, start, n - 1);
    return true;
  }

  lemma ExtendWalk(p: Parents, m: Slots, start: SlotId, c: SlotId, seen: set<SlotId>, n: nat)
    requires p == ParentsOf(m) && c in m && Above(p, c, start, n)
    requires forall x :: x in seen ==> Anc(p, c, x)
    ensures m[c].parent.Some? ==> Above(p, m[c].parent.value, start, n + 1)
    ensures m[c].parent.Some? ==> forall x :: x in seen + {c} ==> Anc(p, m[c].parent.value, x)
  {
    if m[c].parent.Some? {
      var q := m[c].parent.value;
      assert Above(p, q, c, 1) by { assert Above(p, q, p[c], 0); }
      AboveJoin(p, q, c, start, 1, n);
      forall x | x in seen + {c} ensures Anc(p, q, x) {
        assert Anc(p, q, c);
        if x != c { AncTransitive(p, q, c, x); }
      }
    }
  }

  /** A9 as a decision on any slot map: true exactly when no slot is its own ancestor and no link
      leaves the map. */
  method IsForest(m: Slots) returns (ok: bool)
    ensures ok <==> Acyclic(ParentsOf(m)) && !Dangling(m)
  {
    ghost var p := ParentsOf(m);
    var todo := m.Keys;
    while todo != {}
      invariant todo <= m.Keys
      invariant forall s :: s in m && s !in todo ==> !Anc(p, s, s) && forall q :: ChildOf(m, s, q) ==> q in m
      decreases |todo|
    {
      var s :| s in todo;
      var good := WalkUp(m, s);
      if !good { return false; }
      todo := todo - {s};
    }
    forall s ensures !Anc(p, s, s) { AncUnfold(p, s, s); }
    return true;
  }
}
