/** What each operation does to ancestry, to the set of capabilities and to the mappings, stated
    between the state before and the state after.
 */
module Ancestry {
  import opened Wrappers
  import opened Forest
  import opened Authority
  import Theory
  import opened Operations
  import opened Preservation

  // ── delete, move, rotate ───────────────────────────────────────────────────

  /** A delete keeps the strict-ancestor relation exactly on the slots that survive it. */
  lemma DeleteKeepsAncestry(st: State, n: nat, a: SlotId, d: SlotId)
    requires Inv(st) && Occupied(st.slots, Real(n))
    ensures Ancestor(Delete(st, n).0.slots, a, d) <==> Ancestor(st.slots, a, d) && a != Real(n) && d != Real(n)
  {
    DeleteParents(st.slots, Real(n));
    SpliceAnc(ParentsOf(st.slots), Real(n), a, d);
  }

  lemma ConjugateTransports(m: Slots, pi: Perm, a: SlotId, d: SlotId)
    requires Relocates(m, pi)
    ensures Ancestor(Theory.Conjugate(m, pi), pi.To(a), pi.To(d)) <==> Ancestor(m, a, d)
  {
    ConjugateParents(m, pi);
    RenameAnc(ParentsOf(m), ParentsOf(Theory.Conjugate(m, pi)), pi, a, d);
  }

  /** A rotate carries the strict-ancestor relation along: pivot to destination, source to pivot,
      destination to source; or source and pivot traded. */
  lemma RotateTransportsAncestry(st: State, dest: nat, pivot: nat, src: nat, a: SlotId, d: SlotId)
    requires Inv(st) && src != pivot && dest != pivot && Rotate(st, dest, pivot, src).1 == Code(OK)
    ensures var pi := if dest == src then Swap(Real(src), Real(pivot)) else Cycle(Real(pivot), Real(dest), Real(src));
            Ancestor(Rotate(st, dest, pivot, src).0.slots, pi.To(a), pi.To(d)) <==> Ancestor(st.slots, a, d)
  {
    ConjugateTransports(st.slots, RotatePerm(dest, pivot, src), a, d);
  }

  /** A move carries it along the transposition of source and destination. */
  lemma MoveTransportsAncestry(st: State, src: nat, dst: nat, a: SlotId, d: SlotId)
    requires Inv(st) && Move(st, src, dst).1 == Code(OK)
    ensures var pi := Swap(Real(src), Real(dst));
            Ancestor(Move(st, src, dst).0.slots, pi.To(a), pi.To(d)) <==> Ancestor(st.slots, a, d)
  {
    var x, y := Real(src), Real(dst);
    MoveIsSwap(st.slots, x, y);
    assert ParentsOf(Theory.Move(st.slots, x, y)) == ParentsOf(Theory.Conjugate(st.slots, Swap(x, y)));
    ConjugateTransports(st.slots, Swap(x, y), a, d);
  }

  lemma ConjugateBackAt(m: Slots, a: SlotId, b: SlotId, t: SlotId)
    requires Relocates(m, Swap(a, b)) && Relocates(Theory.Conjugate(m, Swap(a, b)), Swap(a, b)) && t in m
    ensures var m2 := Theory.Conjugate(Theory.Conjugate(m, Swap(a, b)), Swap(a, b)); t in m2 && m2[t] == m[t]
  {
    hide Theory.Conjugate;
    var pi, s := Swap(a, b), m[t];
    ConjugateKeys(m, pi);
    ConjugateKeys(Theory.Conjugate(m, pi), pi);
    ConjugateAt(m, pi, t);
    ConjugateAt(Theory.Conjugate(m, pi), pi, pi.To(t));
    assert Theory.RenameAll(pi, Theory.RenameAll(pi, s.children)) == s.children;
  }

  lemma ConjugateBack(m: Slots, a: SlotId, b: SlotId)
    requires Relocates(m, Swap(a, b))
    ensures Theory.Conjugate(Theory.Conjugate(m, Swap(a, b)), Swap(a, b)) == m
  {
    hide Theory.Conjugate;
    var pi := Swap(a, b);
    ConjugateKeys(m, pi);
    ConjugateKeys(Theory.Conjugate(m, pi), pi);
    forall t | t in m ensures Theory.Conjugate(Theory.Conjugate(m, pi), pi)[t] == m[t] {
      ConjugateBackAt(m, a, b, t);
    }
  }

  /** Swapping two occupied slots twice is the identity on the whole state, child order included. */
  lemma SwapTwice(st: State, pivot: nat, src: nat)
    requires Inv(st) && Rotate(st, src, pivot, src).1 == Code(OK)
    ensures var st1 := Rotate(st, src, pivot, src).0;
            Rotate(st1, src, pivot, src) == (st, Code(OK))
  {
    hide Inv, Theory.Conjugate;
    var m, s, p := st.slots, Real(src), Real(pivot);
    ConjugateBack(m, s, p);
    ConjugateKeys(m, Swap(s, p));
    ConjugateAt(m, Swap(s, p), s);
    ConjugateAt(m, Swap(s, p), p);
  }

  /** A move is the renaming of source and destination, up to the order of one child list. */
  lemma MoveIsRenaming(st: State, src: nat, dst: nat)
    requires Inv(st) && Move(st, src, dst).1 == Code(OK)
    ensures SameUpToOrder(Theory.Conjugate(st.slots, Swap(Real(src), Real(dst))), Move(st, src, dst).0.slots)
    ensures Real(src) in st.slots && Move(st, src, dst).0.slots[Real(src)] == EMPTY
  {
    hide Theory.Conjugate, Theory.Move;
    var x, y := Real(src), Real(dst);
    MoveIsSwap(st.slots, x, y);
    ConjugateAt(st.slots, Swap(x, y), y);
    var c, r := Theory.Conjugate(st.slots, Swap(x, y)), Theory.Move(st.slots, x, y);
    assert |r[x].children| > 0 ==> Lists(r, x, r[x].children[0]);
  }

  // ── revoke ─────────────────────────────────────────────────────────────────

  /** The slots an operation emptied. */
  ghost function Emptied(before: Slots, after: Slots): set<SlotId> {
    set t | t in before && Occupied(before, t) && !Occupied(after, t)
  }

  /** A10, at every depth: exactly the strict descendants are emptied, mapping capabilities
      included; the root keeps everything but its children; nobody else changes at all. */
  lemma RevokeExact(st: State, n: nat)
    requires Inv(st) && Occupied(st.slots, Real(n))
    ensures Revoke(st, n).1 == Code(OK)
    ensures var m, m' := st.slots, Revoke(st, n).0.slots;
            && m'.Keys == m.Keys
            && Emptied(m, m') == Desc(ParentsOf(m), Real(n))
            && (forall t :: t in Emptied(m, m') ==> m'[t] == EMPTY)
            && m'[Real(n)] == m[Real(n)].(children := [])
            && (forall t :: t in m && t != Real(n) && !Ancestor(m, Real(n), t) ==> m'[t] == m[t])
  {
    var m, i := st.slots, Real(n);
    var p := ParentsOf(m);
    forall t | Anc(p, i, t) ensures t in p && Occupied(m, t) { AncUnfold(p, i, t); }
    assert Emptied(m, Theory.Revoke(m, i)) == Desc(p, i);
  }

  /** The count the system call answers is the number of capabilities destroyed. */
  lemma RevokeCount(st: State, n: nat)
    requires Inv(st) && Occupied(st.slots, Real(n)) && n != 0
    ensures SyscallRevoke(st, n).1 == Code(|Emptied(st.slots, SyscallRevoke(st, n).0.slots)|)
  {
    RevokeExact(st, n);
  }

  // ── mappings ───────────────────────────────────────────────────────────────

  /** D-13: a revoke takes frame `f` out of exactly the spaces whose capability descends from the
      revoked slot, whatever the addresses. */
  lemma RevokeUnmaps(st: State, n: nat, f: nat, k: nat, va: int)
    requires Inv(st) && Occupied(st.slots, Real(n)) && f in st.maps
    ensures f in Revoke(st, n).0.maps
    ensures (k, va) in Revoke(st, n).0.maps[f] <==>
            (k, va) in st.maps[f] && !Ancestor(st.slots, Real(n), MapCap(f, k))
  {
    if (k, va) in st.maps[f] { assert MapsInto(st.maps, f, k); }
  }

  /** No other operation on the tree takes a mapping away. */
  lemma DeleteKeepsMappings(st: State, n: nat)
    requires Inv(st)
    ensures Delete(st, n).0.maps == st.maps
  {
    if Occupied(st.slots, Real(n)) {
      forall f: nat | f in st.maps ensures Delete(st, n).0.maps[f] == st.maps[f] {
        forall pr: (nat, int) | pr in st.maps[f] ensures Occupied(st.slots, MapCap(f, pr.0)) {
          assert MapsInto(st.maps, f, pr.0);
        }
      }
    }
  }

  /** Where a space's capability on a frame hangs when it is granted through slot `n`: beside `n`, or
      below it when `n` is a root. */
  function Hook(m: Slots, n: nat): SlotId
    requires Real(n) in m
  {
    if m[Real(n)].parent.Some? then m[Real(n)].parent.value else Real(n)
  }

  /** The frame a slot names. */
  function FrameAt(st: State, n: nat): nat
    requires Occupied(st.slots, Real(n)) && FrameIndex(st.frames, st.slots[Real(n)].obj.value).Some?
  {
    FrameIndex(st.frames, st.slots[Real(n)].obj.value).value
  }

  lemma MapGrants(st: State, n: nat, va: int, space: nat)
    requires Inv(st) && VMap(st, n, va, space).1 == Code(OK)
    ensures Occupied(st.slots, Real(n)) && FrameIndex(st.frames, st.slots[Real(n)].obj.value).Some?
    ensures var f, k, st' := FrameAt(st, n), space % st.cfg.nspaces, VMap(st, n, va, space).0;
            var p := Hook(st.slots, n);
            && f in st'.maps && (k, va) in st'.maps[f] && p.Real? && Occupied(st.slots, p)
            && (Occupied(st.slots, MapCap(f, k)) ==> st'.slots == st.slots)
            && (!Occupied(st.slots, MapCap(f, k)) ==> ParentsOf(st'.slots) == ParentsOf(st.slots)[MapCap(f, k) := p])
            && (!Occupied(st.slots, MapCap(f, k)) ==> MapCap(f, k) !in ParentsOf(st.slots).Values)
  {
    hide Edges, Live, MappingAuthority, Numbered;
    var m, s := st.slots, st.slots[Real(n)];
    var f, k := FrameAt(st, n), space % st.cfg.nspaces;
    ParentIsReal(st, Real(n));
    if !Occupied(m, MapCap(f, k)) {
      GrantAttach(st, n, f, k, Hook(m, n));
      AttachParents(m, MapCap(f, k), s.obj.value, s.rights, s.badge, Hook(m, n));
    }
  }

  /** D-13 for every successful map and every slot revoked after it. If the space had its capability on
      the frame already, the page stays exactly when that capability is not below the revoked slot; if
      the map granted it, exactly when the revoked slot is neither the one it hangs under nor above. */
  lemma MapThenRevokeAny(st: State, n: nat, va: int, space: nat, x: nat)
    requires Inv(st) && VMap(st, n, va, space).1 == Code(OK) && Occupied(st.slots, Real(x))
    ensures Occupied(st.slots, Real(n)) && FrameIndex(st.frames, st.slots[Real(n)].obj.value).Some?
    ensures var f, k, p := FrameAt(st, n), space % st.cfg.nspaces, Hook(st.slots, n);
            var st' := Revoke(VMap(st, n, va, space).0, x).0;
            f in st'.maps
            && ((k, va) in st'.maps[f] <==>
                if Occupied(st.slots, MapCap(f, k)) then !Ancestor(st.slots, Real(x), MapCap(f, k))
                else p != Real(x) && !Ancestor(st.slots, Real(x), p))
  {
    hide Inv, VMap, Revoke;
    MapGrants(st, n, va, space);
    MapKeepsSlots(st, n, va, space, x);
    VMapInv(st, n, va, space);
    var f, k, p, st1 := FrameAt(st, n), space % st.cfg.nspaces, Hook(st.slots, n), VMap(st, n, va, space).0;
    if !Occupied(st.slots, MapCap(f, k)) {
      LeafAnc(ParentsOf(st.slots), MapCap(f, k), p, Real(x), MapCap(f, k));
    }
    RevokeUnmaps(st1, x, f, k, va);
  }

  lemma MapKeepsSlots(st: State, n: nat, va: int, space: nat, x: nat)
    requires Inv(st) && VMap(st, n, va, space).1 == Code(OK) && Occupied(st.slots, Real(x))
    ensures Occupied(VMap(st, n, va, space).0.slots, Real(x)) && st.cfg.nspaces > 0
  {
    hide Tree, Edges, Live, MappingAuthority, Numbered;
    ParentIsReal(st, Real(n));
  }

  /** Revoking the slot mapped through. After the space's first mapping of the frame the page stays
      exactly when that slot has a parent; after a later one, exactly when the capability the space
      already had is not below that slot. */
  lemma MapThenRevoke(st: State, n: nat, va: int, space: nat)
    requires Inv(st) && VMap(st, n, va, space).1 == Code(OK)
    ensures Occupied(st.slots, Real(n)) && FrameIndex(st.frames, st.slots[Real(n)].obj.value).Some?
    ensures var f, k := FrameAt(st, n), space % st.cfg.nspaces;
            var st' := Revoke(VMap(st, n, va, space).0, n).0;
            f in st'.maps
            && ((k, va) in st'.maps[f] <==>
                if Occupied(st.slots, MapCap(f, k)) then !Ancestor(st.slots, Real(n), MapCap(f, k))
                else st.slots[Real(n)].parent.Some?)
  {
    hide VMap, Revoke, Edges, Live, MappingAuthority, FrameTable, Numbered;
    MapGrants(st, n, va, space);
    MapThenRevokeAny(st, n, va, space, n);
    if st.slots[Real(n)].parent.Some? { NotAboveParent(st.slots, Real(n)); }
  }

  /** Revoking the parent of the slot mapped through. It takes the page of a space's first mapping; the
      page of a later one stays exactly when the capability the space had is not below that parent. */
  lemma MapThenRevokeParent(st: State, n: nat, va: int, space: nat)
    requires Inv(st) && VMap(st, n, va, space).1 == Code(OK) && Real(n) in st.slots && st.slots[Real(n)].parent.Some?
    ensures Occupied(st.slots, Real(n)) && FrameIndex(st.frames, st.slots[Real(n)].obj.value).Some?
    ensures var f, k, p := FrameAt(st, n), space % st.cfg.nspaces, st.slots[Real(n)].parent.value;
            p.Real?
            && var st' := Revoke(VMap(st, n, va, space).0, p.n).0;
               f in st'.maps
               && ((k, va) in st'.maps[f] <==>
                   Occupied(st.slots, MapCap(f, k)) && !Ancestor(st.slots, p, MapCap(f, k)))
  {
    hide Inv, VMap, Revoke;
    MapGrants(st, n, va, space);
    MapThenRevokeAny(st, n, va, space, st.slots[Real(n)].parent.value.n);
  }

  /** The first half can fail a holder: map the frame through a child `c` of `n` first, so that the
      capability hangs under `n`, then through `n` itself. Revoking `n` takes the page `n` was mapped
      through, although `n` is not a root. */
  lemma SecondMappingTaken(st: State, n: nat, c: nat, va0: int, va1: int, space: nat)
    requires Inv(st) && ChildOf(st.slots, Real(c), Real(n)) && st.slots[Real(n)].parent.Some?
    requires VMap(st, c, va0, space).1 == Code(OK)
    requires Occupied(st.slots, Real(c)) && FrameIndex(st.frames, st.slots[Real(c)].obj.value).Some?
    requires st.slots[Real(n)].obj == st.slots[Real(c)].obj
    requires !Occupied(st.slots, MapCap(FrameAt(st, c), space % st.cfg.nspaces)) && va0 != va1
    requires forall f :: f in st.maps ==> (space % st.cfg.nspaces, va1) !in st.maps[f]
    ensures var f, k, st1 := FrameAt(st, c), space % st.cfg.nspaces, VMap(st, c, va0, space).0;
            Inv(st1) && VMap(st1, n, va1, space).1 == Code(OK)
            && var st2 := Revoke(VMap(st1, n, va1, space).0, n).0;
               f in st2.maps && (k, va1) !in st2.maps[f]
  {
    hide Edges, Live, MappingAuthority, Numbered;
    MapGrants(st, c, va0, space);
    VMapInv(st, c, va0, space);
    var m, st1 := st.slots, VMap(st, c, va0, space).0;
    var f, k := FrameAt(st, c), space % st.cfg.nspaces;
    assert Lists(m, Real(n), Real(c));
    assert st1.slots[Real(n)].obj == m[Real(n)].obj;
    assert VMap(st1, n, va1, space).1 == Code(OK);
    LeafAnc(ParentsOf(m), MapCap(f, k), Real(n), Real(n), MapCap(f, k));
    MapThenRevoke(st1, n, va1, space);
  }

  /** No slot is above its own parent. */
  lemma NotAboveParent(m: Slots, s: SlotId)
    requires Tree(m) && s in m && m[s].parent.Some?
    ensures m[s].parent.value != s && !Ancestor(m, s, m[s].parent.value)
  {
    AncUnfold(ParentsOf(m), s, s);
  }
}
