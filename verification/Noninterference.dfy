/** What one subject can learn about another's actions.

    A subject is a full subtree of the derivation forest. Its observations are the answers to its
    own operations, polled bits included. If two subjects share no notification, neither's
    observations depend on what the other did, or on when.
 */
module Noninterference {
  import opened Wrappers
  import opened Forest
  import opened Authority
  import Theory
  import opened Operations
  import opened Preservation
  import opened Ancestry
  import Runs

  /** Every slot at or below `r`, mapping capabilities included. */
  ghost function Subtree(m: Slots, r: SlotId): set<SlotId> {
    {r} + Desc(ParentsOf(m), r)
  }

  /** No link leaves the set or enters it. */
  ghost predicate Closed(m: Slots, T: set<SlotId>) {
    && T <= m.Keys
    && forall s, p :: ChildOf(m, s, p) ==> (s in T <==> p in T)
  }

  /** The operations of a subject: every slot it names is its own. Operations that make objects or
      address-space mappings are not among them. */
  ghost predicate Within(op: Op, T: set<SlotId>) {
    match op
    case OpMint(s, d, _, _) => Real(s) in T && Real(d) in T
    case OpSyscallMint(s, d, _, _) => Real(s) in T && Real(d) in T
    case OpMove(s, d) => Real(s) in T && Real(d) in T
    case OpRotate(d, p, s) => Real(d) in T && Real(p) in T && Real(s) in T
    case OpDelete(n) => Real(n) in T
    case OpRevoke(n) => Real(n) in T
    case OpSyscallRevoke(n) => Real(n) in T
    case OpUtReset(n) => Real(n) in T
    case OpSignal(n, _) => Real(n) in T
    case OpPoll(n) => Real(n) in T
    case _ => false
  }

  /** An object is named by a CSpace slot of the set. */
  ghost predicate Names(m: Slots, T: set<SlotId>, o: nat) {
    exists s :: s in T && s.Real? && s in m && m[s].obj == Some(o)
  }

  ghost predicate DisjointObjects(m: Slots, A: set<SlotId>, B: set<SlotId>) {
    forall o: nat :: !(Names(m, A, o) && Names(m, B, o))
  }

  // ── confinement: what an operation leaves alone ────────────────────────────

  /** Between two states, everything outside `T` is as it was: its slots, the types of all objects,
      and the bits of every object `T` does not name; and `T` names nothing new. */
  ghost predicate Confined(st: State, st': State, T: set<SlotId>) {
    && st'.cfg == st.cfg && st'.slots.Keys == st.slots.Keys && st'.objs.Keys == st.objs.Keys
    && (forall s :: s in st.slots && s !in T ==> st'.slots[s] == st.slots[s])
    && (forall o :: o in st.objs ==> st'.objs[o].typ == st.objs[o].typ)
    && (forall o :: o in st.objs && !Names(st.slots, T, o) ==> st'.objs[o].bits == st.objs[o].bits)
    && (forall s :: s in T && s.Real? && Occupied(st'.slots, s) ==> Names(st.slots, T, st'.slots[s].obj.value))
  }

  lemma ConfinedRefl(st: State, T: set<SlotId>)
    requires T <= st.slots.Keys
    ensures Confined(st, st, T)
  {
    forall s | s in T && s.Real? && Occupied(st.slots, s) ensures Names(st.slots, T, st.slots[s].obj.value) {}
  }

  lemma SettleConfined(st: State, m: Slots, T: set<SlotId>)
    requires T <= st.slots.Keys && m.Keys == st.slots.Keys
    requires forall s :: s in m && s !in T ==> m[s] == st.slots[s]
    requires forall s :: s in T && Occupied(m, s) ==> m[s].obj == st.slots[s].obj
    ensures Confined(st, Settle(st, m), T)
  {
    forall s | s in T && s.Real? && Occupied(m, s) ensures Names(st.slots, T, m[s].obj.value) {}
  }

  lemma DeleteConfined(st: State, n: nat, T: set<SlotId>)
    requires Inv(st) && Closed(st.slots, T) && Real(n) in T
    ensures Confined(st, Delete(st, n).0, T)
  {
    hide Inv, Confined, Settle;
    InvSymmetric(st);
    var m, i := st.slots, Real(n);
    if Occupied(m, i) {
      forall s | s in m && s !in T ensures Theory.Delete(m, i)[s] == m[s] {
        assert ChildOf(m, s, i) <==> Lists(m, i, s);
        assert m[i].parent == Some(s) ==> ChildOf(m, i, s);
      }
      SettleConfined(st, Theory.Delete(m, i), T);
    } else {
      ConfinedRefl(st, T);
    }
  }

  lemma {:induction false} AboveInside(m: Slots, T: set<SlotId>, a: SlotId, d: SlotId, k: nat)
    requires Closed(m, T) && Above(ParentsOf(m), a, d, k)
    ensures a in T <==> d in T
    decreases k
  {
    if k > 0 {
      assert ChildOf(m, d, ParentsOf(m)[d]);
      AboveInside(m, T, a, ParentsOf(m)[d], k - 1);
    }
  }

  /** Ancestors and descendants of a closed set's members are members. */
  lemma AncestorInside(m: Slots, T: set<SlotId>, a: SlotId, d: SlotId)
    requires Closed(m, T) && Ancestor(m, a, d)
    ensures a in T <==> d in T
  {
    var k: nat :| k > 0 && Above(ParentsOf(m), a, d, k);
    AboveInside(m, T, a, d, k);
  }

  lemma RevokeConfined(st: State, n: nat, T: set<SlotId>)
    requires Inv(st) && Closed(st.slots, T) && Real(n) in T
    ensures Confined(st, Revoke(st, n).0, T)
  {
    hide Inv, Ancestor, Named, Swept;
    var m, i := st.slots, Real(n);
    if Occupied(m, i) {
      forall s | s in m && s !in T ensures Theory.Revoke(m, i)[s] == m[s] {
        if Ancestor(m, i, s) { AncestorInside(m, T, i, s); }
      }
      SettleConfined(st, Theory.Revoke(m, i), T);
    } else {
      ConfinedRefl(st, T);
    }
  }

  lemma MintConfined(st: State, src: nat, dst: nat, rights: Rights, badge: int, T: set<SlotId>)
    requires Inv(st) && Closed(st.slots, T) && Real(src) in T && Real(dst) in T
    ensures Confined(st, Mint(st, src, dst, rights, badge).0, T)
  {
    hide Tree, Edges, Live, FrameTable, MappingAuthority;
    ConfinedRefl(st, T);
    if Mint(st, src, dst, rights, badge).1 == Code(OK) {
      assert Names(st.slots, T, st.slots[Real(src)].obj.value);
    }
  }

  /** Renaming within a closed set does not touch the links of anybody outside. */
  lemma ConjugateOutside(m: Slots, pi: Perm, T: set<SlotId>, s: SlotId)
    requires Symmetric(m) && Closed(m, T) && Relocates(m, pi) && (forall x :: pi.Moves(x) ==> x in T)
    requires s in m && s !in T
    ensures s in Theory.Conjugate(m, pi) && Theory.Conjugate(m, pi)[s] == m[s]
  {
    assert pi.To(s) == s;
    ConjugateAt(m, pi, s);
    if m[s].parent.Some? { assert ChildOf(m, s, m[s].parent.value); }
    forall i | 0 <= i < |m[s].children| ensures pi.To(m[s].children[i]) == m[s].children[i] {
      assert Lists(m, s, m[s].children[i]) && ChildOf(m, m[s].children[i], s);
    }
    assert Theory.RenameAll(pi, m[s].children) == m[s].children;
  }

  lemma ConjugateConfined(st: State, m': Slots, pi: Perm, T: set<SlotId>)
    requires Inv(st) && Closed(st.slots, T) && Relocates(st.slots, pi)
    requires forall x :: pi.Moves(x) ==> x in T && x.Real?
    requires m'.Keys == st.slots.Keys
    requires forall s :: s in m' && s !in T ==> m'[s] == Theory.Conjugate(st.slots, pi)[s]
    requires forall s :: s in m' ==> m'[s].obj == Theory.Conjugate(st.slots, pi)[s].obj
    ensures Confined(st, st.(slots := m'), T)
  {
    hide Inv, Theory.Conjugate, Theory.RenameAll, Symmetric;
    var m := st.slots;
    InvSymmetric(st);
    ConjugateKeys(m, pi);
    forall s | s in m && s !in T ensures m'[s] == m[s] { ConjugateOutside(m, pi, T, s); }
    forall s | s in T && s.Real? && Occupied(m', s) ensures Names(m, T, m'[s].obj.value) {
      PermInverse(pi, s);
      ConjugateAt(m, pi, pi.From(s));
      assert pi.From(s) in T && pi.From(s).Real?;
    }
  }

  lemma RotateConfined(st: State, dest: nat, pivot: nat, src: nat, T: set<SlotId>)
    requires Inv(st) && Closed(st.slots, T) && Real(dest) in T && Real(pivot) in T && Real(src) in T
    ensures Confined(st, Rotate(st, dest, pivot, src).0, T)
  {
    hide Tree, Edges, Live, FrameTable, MappingAuthority, Theory.Conjugate, Confined;
    if Rotate(st, dest, pivot, src).1 == Code(OK) {
      var pi := RotatePerm(dest, pivot, src);
      ConjugateKeys(st.slots, pi);
      ConjugateConfined(st, Theory.Conjugate(st.slots, pi), pi, T);
    } else {
      ConfinedRefl(st, T);
    }
  }

  lemma MoveConfined(st: State, src: nat, dst: nat, T: set<SlotId>)
    requires Inv(st) && Closed(st.slots, T) && Real(src) in T && Real(dst) in T
    ensures Confined(st, Move(st, src, dst).0, T)
  {
    hide Inv, Theory.Conjugate, Confined;
    if Move(st, src, dst).1 == Code(OK) {
      var m, a, b := st.slots, Real(src), Real(dst);
      MoveIsRenaming(st, src, dst);
      assert m[a].parent.Some? ==> ChildOf(m, a, m[a].parent.value);
      ConjugateKeys(m, Swap(a, b));
      ConjugateConfined(st, Theory.Move(m, a, b), Swap(a, b), T);
    } else {
      ConfinedRefl(st, T);
    }
  }

  lemma SignalPollConfined(st: State, op: Op, T: set<SlotId>)
    requires Inv(st) && Closed(st.slots, T) && Within(op, T) && (op.OpSignal? || op.OpPoll?)
    ensures Confined(st, Step(st, op).0, T)
  {
    hide Tree, Edges, Live, FrameTable, MappingAuthority, Raise;
    ConfinedRefl(st, T);
  }

  /** An operation of a subject stays inside it. */
  lemma StepConfined(st: State, op: Op, T: set<SlotId>)
    requires Inv(st) && Closed(st.slots, T) && Within(op, T)
    ensures Confined(st, Step(st, op).0, T)
  {
    hide Inv, Closed, Confined;
    match op
    case OpMint(s, d, r, b) => MintConfined(st, s, d, r, b, T);
    case OpSyscallMint(s, d, r, b) => ClosedRefl(st, T); MintConfined(st, s, d, r, b, T);
    case OpMove(s, d) => MoveConfined(st, s, d, T);
    case OpRotate(d, p, s) => RotateConfined(st, d, p, s, T);
    case OpDelete(n) => DeleteConfined(st, n, T);
    case OpRevoke(n) => RevokeConfined(st, n, T);
    case OpSyscallRevoke(n) => ClosedRefl(st, T); RevokeConfined(st, n, T);
    case OpUtReset(n) => ClosedRefl(st, T);
    case OpSignal(n, p) => SignalPollConfined(st, op, T);
    case OpPoll(n) => SignalPollConfined(st, op, T);
  }

  lemma ClosedRefl(st: State, T: set<SlotId>)
    requires Closed(st.slots, T)
    ensures Confined(st, st, T)
  {
    ConfinedRefl(st, T);
  }

  /** Links that stay outside `T`, or inside a set disjoint from it, keep that set closed. */
  lemma ConfinedKeepsClosed(st: State, st': State, T: set<SlotId>, U: set<SlotId>)
    requires Symmetric(st.slots) && Symmetric(st'.slots) && Confined(st, st', T)
    requires Closed(st.slots, T) && Closed(st.slots, U) && (U == T || U !! T)
    ensures Closed(st'.slots, U)
  {
    var m, m' := st.slots, st'.slots;
    forall s, p | ChildOf(m', s, p) ensures s in U <==> p in U {
      assert Lists(m', p, s);
      if s !in T { assert ChildOf(m, s, p); }
      if p !in T { assert Lists(m, p, s); assert ChildOf(m, s, p); }
    }
  }

  lemma ConfinedKeepsDisjoint(st: State, st': State, T: set<SlotId>, U: set<SlotId>)
    requires Confined(st, st', T) && U !! T && T + U <= st.slots.Keys && DisjointObjects(st.slots, T, U)
    ensures DisjointObjects(st'.slots, T, U)
  {
    var m, m' := st.slots, st'.slots;
    forall o: nat | Names(m', T, o) ensures Names(m, T, o) {
      var s :| s in T && s.Real? && s in m' && m'[s].obj == Some(o);
      assert Occupied(m', s);
    }
    forall o: nat | Names(m', U, o) ensures Names(m, U, o) {
      var t :| t in U && t.Real? && t in m' && m'[t].obj == Some(o);
      assert m[t].obj == Some(o);
    }
  }

  // ── the unwinding relation ─────────────────────────────────────────────────

  /** Two states that look the same to the subject `T`. */
  ghost predicate SameView(st1: State, st2: State, T: set<SlotId>) {
    && st1.cfg == st2.cfg && T <= st1.slots.Keys && T <= st2.slots.Keys
    && (forall s :: s in T ==> st1.slots[s] == st2.slots[s])
    && (forall o: nat :: Names(st1.slots, T, o) ==> SameObject(st1, st2, o))
  }

  ghost predicate SameObject(st1: State, st2: State, o: nat) {
    o in st1.objs && o in st2.objs && st1.objs[o].typ == st2.objs[o].typ && st1.objs[o].bits == st2.objs[o].bits
  }

  /** What happens inside a disjoint subject is invisible. */
  lemma OthersInvisible(st: State, st': State, A: set<SlotId>, B: set<SlotId>)
    requires Numbered(st.slots, st.objs, st.nextOid)
    requires Confined(st, st', B) && A !! B && A <= st.slots.Keys && DisjointObjects(st.slots, A, B)
    ensures SameView(st', st, A)
  {
    forall o: nat | Names(st'.slots, A, o) ensures SameObject(st', st, o) {
      var s :| s in A && s.Real? && s in st'.slots && st'.slots[s].obj == Some(o);
      assert st.slots[s].obj == Some(o);
      assert Names(st.slots, A, o);
    }
  }

  lemma SameViewTransitive(st1: State, st2: State, st3: State, T: set<SlotId>)
    requires SameView(st1, st2, T) && SameView(st2, st3, T)
    ensures SameView(st1, st3, T)
  {
    forall o: nat | Names(st1.slots, T, o) ensures SameObject(st1, st3, o) {
      var s :| s in T && s.Real? && s in st1.slots && st1.slots[s].obj == Some(o);
      assert st2.slots[s].obj == Some(o);
      assert Names(st2.slots, T, o);
    }
  }

  /** The slots of `T` after an operation depend only on the slots of `T` before it. */
  ghost predicate SameSlots(st1: State, st2: State, T: set<SlotId>) {
    forall s :: s in T ==> s in st1.slots && s in st2.slots && st1.slots[s] == st2.slots[s]
  }

  /** For an operation that moves no bits, same slots and confinement give the same view. */
  lemma ViewAfter(st1: State, st2: State, st1': State, st2': State, T: set<SlotId>)
    requires SameView(st1, st2, T) && Confined(st1, st1', T) && Confined(st2, st2', T) && SameSlots(st1', st2', T)
    requires forall o :: o in st1.objs ==> st1'.objs[o].bits == st1.objs[o].bits
    requires forall o :: o in st2.objs ==> st2'.objs[o].bits == st2.objs[o].bits
    ensures SameView(st1', st2', T)
  {
    forall o: nat | Names(st1'.slots, T, o) ensures SameObject(st1', st2', o) {
      var s :| s in T && s.Real? && s in st1'.slots && st1'.slots[s].obj == Some(o);
      assert Occupied(st1'.slots, s);
      assert Names(st1.slots, T, o);
    }
  }

  lemma {:induction false} AboveAgrees(m1: Slots, m2: Slots, T: set<SlotId>, a: SlotId, d: SlotId, k: nat)
    requires Closed(m1, T) && Closed(m2, T) && d in T && forall s :: s in T ==> m1[s] == m2[s]
    ensures Above(ParentsOf(m1), a, d, k) <==> Above(ParentsOf(m2), a, d, k)
    decreases k
  {
    if k > 0 && d in ParentsOf(m1) {
      assert ChildOf(m1, d, ParentsOf(m1)[d]);
      AboveAgrees(m1, m2, T, a, ParentsOf(m1)[d], k - 1);
    }
  }

  lemma AncestorAgrees(m1: Slots, m2: Slots, T: set<SlotId>, a: SlotId, d: SlotId)
    requires Closed(m1, T) && Closed(m2, T) && d in T && forall s :: s in T ==> m1[s] == m2[s]
    ensures Ancestor(m1, a, d) <==> Ancestor(m2, a, d)
  {
    forall k: nat ensures Above(ParentsOf(m1), a, d, k) <==> Above(ParentsOf(m2), a, d, k) {
      AboveAgrees(m1, m2, T, a, d, k);
    }
  }

  lemma RevokeSame(st1: State, st2: State, T: set<SlotId>, n: nat)
    requires Closed(st1.slots, T) && Closed(st2.slots, T) && SameView(st1, st2, T) && Real(n) in T
    ensures Revoke(st1, n).1 == Revoke(st2, n).1 && SameSlots(Revoke(st1, n).0, Revoke(st2, n).0, T)
    ensures Revoke(st1, n).1 == Code(OK) ==> Revoke(st1, n).0.lastRevoked == Revoke(st2, n).0.lastRevoked
  {
    hide Ancestor, Closed, Desc;
    var m1, m2, i := st1.slots, st2.slots, Real(n);
    forall d | d in T ensures Ancestor(m1, i, d) <==> Ancestor(m2, i, d) { AncestorAgrees(m1, m2, T, i, d); }
    DescInside(m1, m2, T, i);
    DescInside(m2, m1, T, i);
    assert Desc(ParentsOf(m1), i) == Desc(ParentsOf(m2), i);
  }

  lemma DescInside(m1: Slots, m2: Slots, T: set<SlotId>, i: SlotId)
    requires Closed(m1, T) && Closed(m2, T) && i in T && forall s :: s in T ==> m1[s] == m2[s]
    ensures Desc(ParentsOf(m1), i) <= Desc(ParentsOf(m2), i)
  {
    forall d | d in Desc(ParentsOf(m1), i) ensures d in Desc(ParentsOf(m2), i) {
      AncestorInside(m1, T, i, d);
      AncestorAgrees(m1, m2, T, i, d);
    }
  }

  lemma MintSame(st1: State, st2: State, T: set<SlotId>, src: nat, dst: nat, rights: Rights, badge: int)
    requires Inv(st1) && Inv(st2) && SameView(st1, st2, T) && Real(src) in T && Real(dst) in T
    ensures Mint(st1, src, dst, rights, badge).1 == Mint(st2, src, dst, rights, badge).1
    ensures SameSlots(Mint(st1, src, dst, rights, badge).0, Mint(st2, src, dst, rights, badge).0, T)
  {
    hide Tree, Edges, Live, FrameTable, MappingAuthority;
    var s := st1.slots[Real(src)];
    if s.obj.Some? { assert Names(st1.slots, T, s.obj.value); }
  }

  lemma DeleteSame(st1: State, st2: State, T: set<SlotId>, n: nat)
    requires Inv(st1) && Inv(st2) && SameView(st1, st2, T) && Real(n) in T
    ensures Delete(st1, n).1 == Delete(st2, n).1 && SameSlots(Delete(st1, n).0, Delete(st2, n).0, T)
  {
    hide Inv, Named, Swept;
    InvSymmetric(st1);
    InvSymmetric(st2);
  }

  lemma ConjugateSame(m1: Slots, m2: Slots, pi: Perm, T: set<SlotId>, s: SlotId)
    requires Relocates(m1, pi) && Relocates(m2, pi) && (forall x :: pi.Moves(x) ==> x in T)
    requires T <= m1.Keys && T <= m2.Keys && (forall t :: t in T ==> m1[t] == m2[t]) && s in T
    ensures s in Theory.Conjugate(m1, pi) && s in Theory.Conjugate(m2, pi)
    ensures Theory.Conjugate(m1, pi)[s] == Theory.Conjugate(m2, pi)[s]
  {
    PermInverse(pi, s);
    assert pi.From(s) in T;
    ConjugateAt(m1, pi, pi.From(s));
    ConjugateAt(m2, pi, pi.From(s));
  }

  lemma RotateSame(st1: State, st2: State, T: set<SlotId>, dest: nat, pivot: nat, src: nat)
    requires SameView(st1, st2, T) && Real(dest) in T && Real(pivot) in T && Real(src) in T
    ensures Rotate(st1, dest, pivot, src).1 == Rotate(st2, dest, pivot, src).1
    ensures SameSlots(Rotate(st1, dest, pivot, src).0, Rotate(st2, dest, pivot, src).0, T)
  {
    hide Theory.Conjugate;
    if Rotate(st1, dest, pivot, src).1 == Code(OK) {
      var pi := RotatePerm(dest, pivot, src);
      forall s | s in T ensures var c1, c2 := Theory.Conjugate(st1.slots, pi), Theory.Conjugate(st2.slots, pi);
                                s in c1 && s in c2 && c1[s] == c2[s]
      {
        ConjugateSame(st1.slots, st2.slots, pi, T, s);
      }
    }
  }

  lemma MoveSame(st1: State, st2: State, T: set<SlotId>, src: nat, dst: nat)
    requires SameView(st1, st2, T) && Real(src) in T && Real(dst) in T
    requires Closed(st1.slots, T) && Closed(st2.slots, T)
    ensures Move(st1, src, dst).1 == Move(st2, src, dst).1
    ensures SameSlots(Move(st1, src, dst).0, Move(st2, src, dst).0, T)
  {
    hide Theory.Conjugate;
    if Move(st1, src, dst).1 == Code(OK) {
      var a, b := Real(src), Real(dst);
      var pi := Swap(a, b);
      var p := st1.slots[a].parent;
      assert p.Some? ==> ChildOf(st1.slots, a, p.value);
      forall s | s in T ensures var c1, c2 := Theory.Conjugate(st1.slots, pi), Theory.Conjugate(st2.slots, pi);
                                s in c1 && s in c2 && c1[s] == c2[s]
      {
        ConjugateSame(st1.slots, st2.slots, pi, T, s);
      }
    }
  }

  lemma ResolveSame(st1: State, st2: State, T: set<SlotId>, n: nat, required: nat)
    requires Inv(st1) && Inv(st2) && SameView(st1, st2, T) && Real(n) in T
    ensures Resolve(st1, n, required) == Resolve(st2, n, required)
    ensures var r := Resolve(st1, n, required); r.Resolved? ==> Names(st1.slots, T, r.oid) && SameObject(st1, st2, r.oid)
  {
    hide Tree, Edges, Live, FrameTable, MappingAuthority;
    var s := st1.slots[Real(n)];
    if s.obj.Some? { assert Names(st1.slots, T, s.obj.value); }
  }

  lemma SameObjectAfter(st1: State, st2: State, T: set<SlotId>, op: Op, o: nat)
    requires Inv(st1) && Inv(st2) && SameView(st1, st2, T) && Within(op, T) && (op.OpSignal? || op.OpPoll?)
    requires Names(st1.slots, T, o)
    ensures SameObject(Step(st1, op).0, Step(st2, op).0, o)
  {
    hide Inv, Raise, Resolve, Names;
    ResolveSame(st1, st2, T, op.n, if op.OpSignal? then WRITE else WAIT);
  }

  lemma SignalPollSame(st1: State, st2: State, T: set<SlotId>, op: Op)
    requires Inv(st1) && Inv(st2) && SameView(st1, st2, T) && Within(op, T) && (op.OpSignal? || op.OpPoll?)
    ensures Step(st1, op).1 == Step(st2, op).1 && SameView(Step(st1, op).0, Step(st2, op).0, T)
  {
    hide Inv, Raise, Resolve, Names;
    ResolveSame(st1, st2, T, op.n, if op.OpSignal? then WRITE else WAIT);
    forall o: nat | Names(st1.slots, T, o) ensures SameObject(Step(st1, op).0, Step(st2, op).0, o) {
      SameObjectAfter(st1, st2, T, op, o);
    }
  }

  /** Operations other than signal and poll leave every object's bits alone. */
  lemma BitsKept(st: State, op: Op, T: set<SlotId>)
    requires Inv(st) && Within(op, T) && !op.OpSignal? && !op.OpPoll?
    ensures Step(st, op).0.objs.Keys == st.objs.Keys
    ensures forall o :: o in st.objs ==> Step(st, op).0.objs[o].bits == st.objs[o].bits
  {
    hide Inv, Theory.Delete, Theory.Revoke, Theory.Conjugate, Theory.Move, Theory.Derive, Theory.CanDerive, Named, Swept;
  }

  /** From states that look the same, a subject's operation gets the same answer and leads to
      states that look the same. */
  lemma StepSame(st1: State, st2: State, T: set<SlotId>, op: Op)
    requires Inv(st1) && Inv(st2) && Closed(st1.slots, T) && Closed(st2.slots, T)
    requires SameView(st1, st2, T) && Within(op, T)
    ensures Step(st1, op).1 == Step(st2, op).1 && SameView(Step(st1, op).0, Step(st2, op).0, T)
  {
    if op.OpSignal? || op.OpPoll? {
      SignalPollSame(st1, st2, T, op);
    } else {
      StepSameSlots(st1, st2, T, op);
      hide Inv, Closed, Confined, SameView, SameSlots, Within;
      StepConfined(st1, op, T);
      StepConfined(st2, op, T);
      BitsKept(st1, op, T);
      BitsKept(st2, op, T);
      ViewAfter(st1, st2, Step(st1, op).0, Step(st2, op).0, T);
    }
  }

  lemma StepSameSlots(st1: State, st2: State, T: set<SlotId>, op: Op)
    requires Inv(st1) && Inv(st2) && Closed(st1.slots, T) && Closed(st2.slots, T)
    requires SameView(st1, st2, T) && Within(op, T) && !op.OpSignal? && !op.OpPoll?
    ensures Step(st1, op).1 == Step(st2, op).1 && SameSlots(Step(st1, op).0, Step(st2, op).0, T)
  {
    hide Inv, Closed, Mint, Move, Rotate, Delete, Revoke;
    match op
    case OpMint(s, d, r, b) => MintSame(st1, st2, T, s, d, r, b);
    case OpSyscallMint(s, d, r, b) => MintSame(st1, st2, T, s, d, r, b);
    case OpMove(s, d) => MoveSame(st1, st2, T, s, d);
    case OpRotate(d, p, s) => RotateSame(st1, st2, T, d, p, s);
    case OpDelete(n) => DeleteSame(st1, st2, T, n);
    case OpRevoke(n) => RevokeSame(st1, st2, T, n);
    case OpSyscallRevoke(n) => RevokeSame(st1, st2, T, n);
    case OpUtReset(n) => UtResetSame(st1, st2, T, n);
  }

  lemma UtResetSame(st1: State, st2: State, T: set<SlotId>, n: nat)
    requires Inv(st1) && Inv(st2) && SameView(st1, st2, T) && Real(n) in T
    ensures UtReset(st1, n) == UtReset(st2, n)
  {
    hide Tree, Edges, Live, FrameTable, MappingAuthority;
    var s := st1.slots[Real(n)];
    if s.obj.Some? { assert Names(st1.slots, T, s.obj.value); }
  }

  // ── interleavings ──────────────────────────────────────────────────────────

  /** One turn of a schedule: who acts, and what they do. */
  datatype Turn = Turn(byA: bool, op: Op)

  ghost predicate Confines(sched: seq<Turn>, A: set<SlotId>, B: set<SlotId>) {
    forall i :: 0 <= i < |sched| ==> Within(sched[i].op, if sched[i].byA then A else B)
  }

  /** A's own operations, in order. */
  function Alone(sched: seq<Turn>): seq<Turn> {
    if sched == [] then []
    else
      var i := |sched| - 1;
      if sched[i].byA then Alone(sched[..i]) + [sched[i]] else Alone(sched[..i])
  }

  ghost function After(st: State, sched: seq<Turn>): (r: State)
    requires Inv(st)
    ensures Inv(r)
  {
    if sched == [] then st
    else
      var i := |sched| - 1;
      StepInv(After(st, sched[..i]), sched[i].op);
      Step(After(st, sched[..i]), sched[i].op).0
  }

  /** The answers A gets. */
  ghost function Observations(st: State, sched: seq<Turn>): seq<Answer>
    requires Inv(st)
  {
    if sched == [] then []
    else
      var i := |sched| - 1;
      if sched[i].byA then Observations(st, sched[..i]) + [Step(After(st, sched[..i]), sched[i].op).1]
      else Observations(st, sched[..i])
  }

  /** The two subjects: closed, disjoint, and sharing no object. */
  ghost predicate Separate(st: State, A: set<SlotId>, B: set<SlotId>) {
    A !! B && Closed(st.slots, A) && Closed(st.slots, B) && DisjointObjects(st.slots, A, B)
  }

  lemma StepSeparate(st: State, A: set<SlotId>, B: set<SlotId>, op: Op, byA: bool)
    requires Inv(st) && Separate(st, A, B) && Within(op, if byA then A else B)
    ensures Separate(Step(st, op).0, A, B)
    ensures !byA ==> SameView(Step(st, op).0, st, A)
  {
    var st', T, U := Step(st, op).0, if byA then A else B, if byA then B else A;
    StepInv(st, op);
    StepConfined(st, op, T);
    InvSymmetric(st);
    InvSymmetric(st');
    hide Inv, Step, Closed, Confined, Within, Names, Symmetric, SameView;
    assert DisjointObjects(st.slots, T, U);
    ConfinedKeepsClosed(st, st', T, T);
    ConfinedKeepsClosed(st, st', T, U);
    ClosedKeys(st, A);
    ClosedKeys(st, B);
    ConfinedKeepsDisjoint(st, st', T, U);
    if !byA { OthersInvisible(st, st', A, B); }
  }

  lemma ClosedKeys(st: State, T: set<SlotId>)
    requires Closed(st.slots, T)
    ensures T <= st.slots.Keys
  {}

  lemma InvSymmetric(st: State)
    requires Inv(st)
    ensures Symmetric(st.slots) && Numbered(st.slots, st.objs, st.nextOid)
  {}

  /** At every point of an interleaving, A sees what it would see had it run alone. */
  lemma {:induction false} Unwinding(st: State, A: set<SlotId>, B: set<SlotId>, sched: seq<Turn>)
    requires Inv(st) && Separate(st, A, B) && Confines(sched, A, B)
    ensures Separate(After(st, sched), A, B) && Separate(After(st, Alone(sched)), A, B)
    ensures SameView(After(st, sched), After(st, Alone(sched)), A)
    ensures Observations(st, sched) == Observations(st, Alone(sched))
    decreases |sched|
  {
    hide Inv, Step, SameView, Closed, DisjointObjects, Within;
    if sched == [] {
      SameViewRefl(st, A);
    } else {
      var i := |sched| - 1;
      var t, sched0 := sched[i], sched[..i];
      Unwinding(st, A, B, sched0);
      var full, alone := After(st, sched0), After(st, Alone(sched0));
      StepSeparate(full, A, B, t.op, t.byA);
      if t.byA {
        assert Alone(sched)[..|Alone(sched)| - 1] == Alone(sched0);
        StepSeparate(alone, A, B, t.op, true);
        StepSame(full, alone, A, t.op);
      } else {
        SameViewTransitive(After(st, sched), full, alone, A);
      }
    }
  }

  lemma SameViewRefl(st: State, A: set<SlotId>)
    requires Inv(st) && Closed(st.slots, A)
    ensures SameView(st, st, A)
  {}

  /** The full subtree of a root is closed. */
  lemma SubtreeClosed(m: Slots, r: SlotId)
    requires Tree(m) && r in m && m[r].parent.None?
    ensures Closed(m, Subtree(m, r))
  {
    var p := ParentsOf(m);
    forall s, q | ChildOf(m, s, q) ensures s in Subtree(m, r) <==> q in Subtree(m, r) {
      AncUnfold(p, r, s);
      assert Lists(m, q, s);
      if Anc(p, r, q) { AncUnfold(p, r, q); }
    }
    forall s | s in Subtree(m, r) ensures s in m { AncUnfold(p, r, s); }
  }

  /** Non-interference. For every reachable or merely well-formed state, every two roots whose full
      subtrees share neither slot nor object, every pair of operation lists confined to them and
      every interleaving: A's answers and the bits A polls are those of A running alone. */
  lemma NonInterference(st: State, a: nat, b: nat, sched: seq<Turn>)
    requires Inv(st) && Occupied(st.slots, Real(a)) && Occupied(st.slots, Real(b))
    requires st.slots[Real(a)].parent.None? && st.slots[Real(b)].parent.None?
    requires Subtree(st.slots, Real(a)) !! Subtree(st.slots, Real(b))
    requires DisjointObjects(st.slots, Subtree(st.slots, Real(a)), Subtree(st.slots, Real(b)))
    requires Confines(sched, Subtree(st.slots, Real(a)), Subtree(st.slots, Real(b)))
    ensures Observations(st, sched) == Observations(st, Alone(sched))
  {
    SubtreeClosed(st.slots, Real(a));
    SubtreeClosed(st.slots, Real(b));
    Unwinding(st, Subtree(st.slots, Real(a)), Subtree(st.slots, Real(b)), sched);
  }

  lemma SignalThenPoll(st: State, a: nat, b: nat)
    requires Inv(st) && Resolve(st, a, WAIT).Resolved? && Resolve(st, b, WRITE).Resolved?
    requires Resolve(st, a, WAIT).oid == Resolve(st, b, WRITE).oid
    requires st.objs[Resolve(st, a, WAIT).oid].bits == 0
    ensures Inv(Signal(st, b, 1).0)
    ensures Poll(Signal(st, b, 1).0, a).1 == Bits(3) && Poll(st, a).1 == Code(ERR_WOULD_BLOCK)
  {
    hide Tree, Edges, Live, FrameTable, MappingAuthority;
    SignalInv(st, b, 1);
    assert Raise(0, 1) == 3;
  }

  /** And object-disjointness is not decoration: whenever one slot may signal and another may poll
      the same idle notification, a signal changes what the poll answers. */
  lemma SharedNotificationInterferes(st: State, a: nat, b: nat)
    requires Inv(st) && Resolve(st, a, WAIT).Resolved? && Resolve(st, b, WRITE).Resolved?
    requires Resolve(st, a, WAIT).oid == Resolve(st, b, WRITE).oid
    requires st.objs[Resolve(st, a, WAIT).oid].bits == 0
    ensures Observations(st, [Turn(false, OpSignal(b, 1)), Turn(true, OpPoll(a))])
         != Observations(st, Alone([Turn(false, OpSignal(b, 1)), Turn(true, OpPoll(a))]))
  {
    hide Inv, Signal, Poll, Resolve, Observations, After, Alone;
    var s, p := Turn(false, OpSignal(b, 1)), Turn(true, OpPoll(a));
    SignalThenPoll(st, a, b);
    NoTurns(st);
    OneTurn(st, [], s);
    OneTurn(st, [], p);
    OneTurn(st, [s], p);
    assert [] + [s] == [s] && [] + [p] == [p] && [s] + [p] == [s, p];
    assert Observations(st, [s, p]) == [Poll(Signal(st, b, 1).0, a).1];
    assert Observations(st, [p]) == [Poll(st, a).1];
    assert Alone([s, p]) == [p];
    assert [Bits(3)][0] != [Code(ERR_WOULD_BLOCK)][0];
  }

  lemma NoTurns(st: State)
    requires Inv(st)
    ensures Observations(st, []) == [] && After(st, []) == st && Alone([]) == []
  {}

  lemma OneTurn(st: State, sched: seq<Turn>, t: Turn)
    requires Inv(st)
    ensures After(st, sched + [t]) == Step(After(st, sched), t.op).0
    ensures Observations(st, sched + [t]) == Observations(st, sched) + if t.byA then [Step(After(st, sched), t.op).1] else []
    ensures Alone(sched + [t]) == Alone(sched) + if t.byA then [t] else []
  {
    hide Inv, Step;
    assert (sched + [t])[..|sched|] == sched;
  }
}
