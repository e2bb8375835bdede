/** What each operation answers and changes, said directly of the slots, objects and mappings before
    and after: the condition of every answer, every field of every slot that changes, and that
    nothing else does.
 */
module Outcomes {
  import opened Wrappers
  import opened Forest
  import opened Authority
  import Theory
  import Model
  import opened Operations
  import opened Preservation

  /** Only the slots differ, and they are the same slots. */
  ghost predicate OnlySlots(st: State, st': State) {
    st' == st.(slots := st'.slots) && st'.slots.Keys == st.slots.Keys
  }

  /** Every slot outside `S` is as it was. */
  ghost predicate Elsewhere(st: State, st': State, S: set<SlotId>) {
    forall t :: t in st.slots && t !in S ==> t in st'.slots && st'.slots[t] == st.slots[t]
  }

  /** The objects keep their types and bits, and live exactly while named. */
  ghost predicate ObjectsSettled(st: State, st': State) {
    && st'.objs.Keys == st.objs.Keys && st'.nextOid == st.nextOid
    && forall o :: o in st.objs ==>
      st'.objs[o].typ == st.objs[o].typ && st'.objs[o].bits == st.objs[o].bits
      && (st'.objs[o].alive <==> exists s :: s in st'.slots && st'.slots[s].obj == Some(o))
  }

  // ── mint ───────────────────────────────────────────────────────────────────

  /** The tests of a mint, each given the ones before. */
  ghost predicate CanBadge(st: State, s: Slot, badge: int)
    requires s.obj.Some? && s.obj.value in st.objs
  {
    badge == 0 || s.badge == badge || (s.badge == 0 && st.objs[s.obj.value].typ in {Endpoint, Notification})
  }

  lemma MeetIff(a: Rights, b: Rights)
    ensures a * b != {} <==> exists r :: r in a && r in b
  {
    if a * b != {} {
      var r :| r in a * b;
      assert r in a && r in b;
    }
    if r :| r in a && r in b {
      assert r in a * b;
    }
  }

  lemma MintAnswers(st: State, src: nat, dst: nat, rights: Rights, badge: int)
    requires Inv(st)
    ensures var (m, a) := (st.slots, Step(st, OpMint(src, dst, rights, badge)).1);
            var named := Real(src) in m && Real(dst) in m && src != dst;
            && (a == Code(ERR_NOT_FOUND) <==> named && m[Real(src)].obj.None?)
            && (named && m[Real(src)].obj.Some? ==>
                  var s := m[Real(src)];
                  var meet := exists r :: r in s.rights && r in rights;
                  && s.obj.value in st.objs
                  && (a == Code(OK) <==> DUPLICATE in s.rights && meet && CanBadge(st, s, badge) && m[Real(dst)].obj.None?)
                  && (a == Code(ERR_ALREADY_EXISTS) <==> DUPLICATE in s.rights && meet && CanBadge(st, s, badge) && m[Real(dst)].obj.Some?)
                  && (a == Code(ERR_ACCESS_DENIED) <==>
                        DUPLICATE !in s.rights || (meet && badge != 0 && s.badge != 0 && s.badge != badge))
                  && (a == Code(ERR_INVALID_ARG) <==>
                        DUPLICATE in s.rights && (!meet || (s.badge == 0 && !CanBadge(st, s, badge)))))
            && (!named ==> a == Code(ERR_INVALID_ARG))
  {
    hide Tree, Edges, Live, FrameTable, MappingAuthority;
    var m := st.slots;
    if Real(src) in m {
      var have := m[Real(src)].rights;
      assert have * {DUPLICATE} == {DUPLICATE} <==> DUPLICATE in have;
      MeetIff(have, rights);
    }
  }

  /** A success adds a leaf: the source's object, the rights both sides name, and the source's badge or
      the one asked for; last among the source's children. A refusal changes nothing. */
  lemma MintEffect(st: State, src: nat, dst: nat, rights: Rights, badge: int)
    requires Inv(st)
    ensures var (st', a) := Step(st, OpMint(src, dst, rights, badge));
            if a != Code(OK) then st' == st
            else
              && OnlySlots(st, st') && Elsewhere(st, st', {Real(src), Real(dst)})
              && Real(src) in st.slots && Real(dst) in st.slots
              && var s, d := st.slots[Real(src)], st'.slots[Real(dst)];
                 && d.obj == s.obj && d.parent == Some(Real(src)) && d.children == []
                 && (forall r :: r in d.rights <==> r in s.rights && r in rights)
                 && d.badge == (if badge == 0 then s.badge else badge)
                 && st'.slots[Real(src)] == s.(children := s.children + [Real(dst)])
  {
    hide Tree, Edges, Live, FrameTable, MappingAuthority;
  }

  /** The system call refuses the null slot and an empty source first. */
  lemma SyscallMintAnswers(st: State, src: nat, dst: nat, rights: Rights, badge: int)
    requires Inv(st)
    ensures var r := Step(st, OpSyscallMint(src, dst, rights, badge));
            if src == 0 || dst == 0 || Real(src) !in st.slots then r == (st, Code(ERR_INVALID_ARG))
            else if st.slots[Real(src)].obj.None? then r == (st, Code(ERR_NOT_FOUND))
            else r == Step(st, OpMint(src, dst, rights, badge))
  {
    hide Inv;
  }

  // ── retype, seed ───────────────────────────────────────────────────────────

  lemma RetypeAnswers(st: State, ut: nat, t: ObjType, dst: nat)
    requires Inv(st)
    ensures var (m, a) := (st.slots, Step(st, OpRetype(ut, t, dst)).1);
            var named := Real(ut) in m && Real(dst) in m && ut != 0;
            && (!named ==> a == Code(ERR_INVALID_ARG))
            && (a == Code(ERR_NOT_FOUND) <==> named && m[Real(ut)].obj.None?)
            && (named && m[Real(ut)].obj.Some? ==>
                  var u := m[Real(ut)];
                  && u.obj.value in st.objs
                  && var carve := st.objs[u.obj.value].typ == Untyped && WRITE in u.rights;
                     && (a == Code(ERR_WRONG_TYPE) <==> st.objs[u.obj.value].typ != Untyped)
                     && (a == Code(ERR_ACCESS_DENIED) <==> st.objs[u.obj.value].typ == Untyped && WRITE !in u.rights)
                     && (a == Code(ERR_INVALID_ARG) <==> carve && dst == 0)
                     && (a == Code(ERR_ALREADY_EXISTS) <==> carve && dst != 0 && m[Real(dst)].obj.Some?)
                     && (a == Code(OK) <==> carve && dst != 0 && m[Real(dst)].obj.None?))
  {
    hide Tree, Edges, Live, FrameTable, MappingAuthority;
  }

  /** A success makes one live object of that type, with no bits, and one capability to it below the
      Untyped, unbadged, with the rights its type is born with. */
  lemma RetypeEffect(st: State, ut: nat, t: ObjType, dst: nat)
    requires Inv(st)
    ensures var (st', a) := Step(st, OpRetype(ut, t, dst));
            if a != Code(OK) then st' == st
            else
              && Elsewhere(st, st', {Real(ut), Real(dst)}) && st'.slots.Keys == st.slots.Keys
              && st' == st.(slots := st'.slots, objs := st'.objs, nextOid := st.nextOid + 1)
              && st.nextOid !in st.objs && st'.objs == st.objs[st.nextOid := Obj(t, 0, true)]
              && Real(ut) in st.slots && Real(dst) in st.slots
              && st'.slots[Real(ut)] == st.slots[Real(ut)].(children := st.slots[Real(ut)].children + [Real(dst)])
              && var d := st'.slots[Real(dst)];
                 && d.obj == Some(st.nextOid) && d.badge == 0 && d.parent == Some(Real(ut)) && d.children == []
                 && d.rights == (if t in {Endpoint, Reply, SchedContext} then {READ, WRITE, DUPLICATE, TRANSFER}
                                 else if t == Notification then {READ, WRITE, DUPLICATE, TRANSFER, WAIT}
                                 else {READ, WRITE, DUPLICATE, TRANSFER, WAIT, ROUTE, MANAGE})
  {
    hide Tree, Edges, Live, FrameTable, MappingAuthority;
  }

  /** Seeding deletes what was there and puts a fresh object in a slot without parent or children, with
      exactly the rights asked for. */
  lemma SeedEffect(st: State, n: nat, t: ObjType, rights: Rights)
    requires Inv(st)
    ensures var (st', a) := Step(st, OpSeed(n, t, rights));
            if Real(n) !in st.slots then (st', a) == (st, Code(ERR_INVALID_ARG))
            else
              var gone := Step(st, OpDelete(n)).0;
              && a == Code(OK) && gone.nextOid == st.nextOid && st.nextOid !in gone.objs
              && st' == gone.(slots := gone.slots[Real(n) := Slot(Some(st.nextOid), rights, 0, None, [])],
                              objs := gone.objs[st.nextOid := Obj(t, 0, true)], nextOid := st.nextOid + 1)
    ensures Step(st, OpInstallUntyped(n)) == Step(st, OpSeed(n, Untyped, {READ, WRITE, DUPLICATE, TRANSFER}))
  {
    hide Tree, Edges, Live, FrameTable, MappingAuthority;
  }

  /** A frame is a seed, recorded in the frame table with no mappings; beyond the root CNode or a full
      table there is no answer at all. */
  lemma VFrameEffect(st: State, n: nat)
    requires Inv(st)
    ensures var (st', a) := Step(st, OpVFrame(n));
            var seeded := Step(st, OpSeed(n, Frame, {READ, WRITE, DUPLICATE}));
            if n >= st.cfg.spc || |st.frames| >= st.cfg.nframes then (st', a) == (st, Silent)
            else if seeded.1 != Code(OK) then (st', a) == seeded
            else a == Code(OK) && st' == seeded.0.(frames := st.frames + [st.nextOid], maps := seeded.0.maps[|st.frames| := {}])
  {
    hide Inv;
  }

  // ── delete, move ───────────────────────────────────────────────────────────

  /** Leaving a name out of a list without repetition takes one place out. */
  lemma {:induction false} WithoutAt(s: seq<SlotId>, x: SlotId) returns (k: nat)
    requires NoDup(s) && x in s
    ensures k < |s| && s[k] == x && Theory.Without(s, x) == s[..k] + s[k + 1..]
  {
    var n := |s| - 1;
    var t, y := s[..n], s[n];
    assert s == t + [y];
    NoDupSnoc(t, y);
    if y == x {
      k := n;
      assert s[..k] + s[k + 1..] == t;
    } else {
      k := WithoutAt(t, x);
      assert s[..k] + s[k + 1..] == t[..k] + t[k + 1..] + [y];
    }
  }

  /** Deleting: the slot is emptied, its children get its parent, and the parent's list loses it and gains
      them, in order, at the end. No mapping changes. */
  lemma DeleteEffect(st: State, n: nat)
    requires Inv(st)
    ensures var (st', a) := Step(st, OpDelete(n));
            var m, m', i := st.slots, st'.slots, Real(n);
            if i !in m then (st', a) == (st, Code(ERR_INVALID_ARG))
            else if m[i].obj.None? then (st', a) == (st, Code(OK))
            else
              && a == Code(OK) && st' == st.(slots := m', objs := st'.objs, maps := st'.maps)
              && m'.Keys == m.Keys && ObjectsSettled(st, st')
              && m'[i] == EMPTY
              && (forall c :: c in m[i].children ==> c in m && m'[c] == m[c].(parent := m[i].parent))
              && (m[i].parent.Some? ==>
                    var p := m[i].parent.value;
                    p in m && m'[p] == m[p].(children := m'[p].children)
                    && exists k :: 0 <= k < |m[p].children| && m[p].children[k] == i
                                   && m'[p].children == m[p].children[..k] + m[p].children[k + 1..] + m[i].children)
              && (forall t :: t in m && t != i && t !in m[i].children && m[i].parent != Some(t) ==> m'[t] == m[t])
  {
    hide Edges, Live, FrameTable, MappingAuthority, Numbered, Theory.Without, Swept;
    var m, i := st.slots, Real(n);
    if Occupied(m, i) {
      forall c | c in m[i].children ensures ChildOf(m, c, i) { assert Lists(m, i, c); }
      NotOwnChild(st, i);
      if m[i].parent.Some? {
        var p := m[i].parent.value;
        assert ChildOf(m, i, p) && Lists(m, p, i);
        var k := WithoutAt(m[p].children, i);
      }
    }
  }

  /** No slot is its own child, nor a child of its own child. */
  lemma NotOwnChild(st: State, i: SlotId)
    requires Inv(st) && i in st.slots
    ensures i !in st.slots[i].children
    ensures st.slots[i].parent.Some? ==> st.slots[i].parent.value != i && st.slots[i].parent.value !in st.slots[i].children
  {
    var m := st.slots;
    var p := ParentsOf(m);
    AncUnfold(p, i, i);
    assert Lists(m, i, i) ==> ChildOf(m, i, i);
    if m[i].parent.Some? {
      var q := m[i].parent.value;
      assert Lists(m, i, q) ==> ChildOf(m, q, i);
      AncUnfold(p, i, q);
    }
  }

  lemma MoveAnswers(st: State, src: nat, dst: nat)
    requires Inv(st)
    ensures var (m, (st', a)) := (st.slots, Step(st, OpMove(src, dst)));
            var named := Real(src) in m && Real(dst) in m && src != 0 && dst != 0;
            && (!named ==> a == Code(ERR_INVALID_ARG))
            && (named ==>
                  && (a == Code(ERR_NOT_FOUND) <==> m[Real(src)].obj.None?)
                  && (a == Code(ERR_INVALID_ARG) <==> m[Real(src)].obj.Some? && src == dst)
                  && (a == Code(ERR_ALREADY_EXISTS) <==> m[Real(src)].obj.Some? && src != dst && m[Real(dst)].obj.Some?)
                  && (a == Code(OK) <==> m[Real(src)].obj.Some? && m[Real(dst)].obj.None?))
            && (a != Code(OK) ==> st' == st)
  {
    hide Inv, Theory.Move;
  }

  /** Moving: the destination has all that the source had, the source is empty, the children point at the
      destination, and the parent's list loses the source and gains the destination at its end. */
  lemma MoveEffect(st: State, src: nat, dst: nat)
    requires Inv(st) && Step(st, OpMove(src, dst)).1 == Code(OK)
    ensures var (m, st', x, y) := (st.slots, Step(st, OpMove(src, dst)).0, Real(src), Real(dst));
            && x in m && y in m && OnlySlots(st, st')
            && st'.slots[x] == EMPTY && st'.slots[y] == m[x]
            && (forall c :: c in m[x].children ==> c in m && st'.slots[c] == m[c].(parent := Some(y)))
            && (m[x].parent.Some? ==>
                  var p := m[x].parent.value;
                  p in m && st'.slots[p] == m[p].(children := st'.slots[p].children)
                  && exists k :: 0 <= k < |m[p].children| && m[p].children[k] == x
                                 && st'.slots[p].children == m[p].children[..k] + m[p].children[k + 1..] + [y])
            && (forall t :: t in m && t != x && t != y && t !in m[x].children && m[x].parent != Some(t) ==> st'.slots[t] == m[t])
  {
    hide Inv, Theory.Conjugate, Theory.Without, Model.RelocatedSlot, Model.Apart;
    var m, x, y := st.slots, Real(src), Real(dst);
    MoveApart(st, src, dst);
    forall t | t in m
      ensures t in Theory.Move(m, x, y)
      ensures Theory.Move(m, x, y)[t] ==
              if m[x].parent == Some(t) then m[t].(children := Theory.Without(m[t].children, x) + [y]) else Model.RelocatedSlot(m, x, y, t)
    {
      Model.MoveAt(m, x, y, t);
    }
    MovedSlots(m, x, y);
    Model.MoveKeys(m, x, y);
    if m[x].parent.Some? {
      var p := m[x].parent.value;
      var k := WithoutAt(m[p].children, x);
    }
  }

  lemma MoveApart(st: State, src: nat, dst: nat)
    requires Inv(st) && Move(st, src, dst).1 == Code(OK)
    ensures Model.Apart(st.slots, Real(src), Real(dst))
  {
    Model.RelocateLinks(st.slots, Real(src), Real(dst));
  }

  /** What the slots around a relocated one are. */
  lemma MovedSlots(m: Slots, x: SlotId, y: SlotId)
    requires Model.Apart(m, x, y)
    ensures Model.RelocatedSlot(m, x, y, y) == m[x] && Model.RelocatedSlot(m, x, y, x) == EMPTY
    ensures forall c :: c in m[x].children ==> c in m && c != x && c != y && Model.RelocatedSlot(m, x, y, c) == m[c].(parent := Some(y))
                                                && m[x].parent != Some(c)
    ensures forall t :: t in m && t != x && t != y && t !in m[x].children && m[x].parent != Some(t) ==> Model.RelocatedSlot(m, x, y, t) == m[t]
    ensures m[x].parent.Some? ==> var p := m[x].parent.value; p in m && p != x && p != y && x in m[p].children && NoDup(m[p].children)
  {}

  // ── rotate ─────────────────────────────────────────────────────────────────

  /** What a slot holds, leaving its links aside. */
  function Held(s: Slot): (Option<nat>, Rights, int) { (s.obj, s.rights, s.badge) }

  lemma RotateAnswers(st: State, dest: nat, pivot: nat, src: nat)
    requires Inv(st)
    ensures var (m, (st', a)) := (st.slots, Step(st, OpRotate(dest, pivot, src)));
            var named := Real(dest) in m && Real(pivot) in m && Real(src) in m && src != pivot && dest != pivot;
            && (a == Code(ERR_INVALID_ARG) <==> !named)
            && (named ==>
                  && (a == Code(ERR_NOT_FOUND) <==> m[Real(src)].obj.None? || m[Real(pivot)].obj.None?)
                  && (a == Code(ERR_ALREADY_EXISTS) <==>
                        m[Real(src)].obj.Some? && m[Real(pivot)].obj.Some? && dest != src && m[Real(dest)].obj.Some?)
                  && (a == Code(OK) <==>
                        m[Real(src)].obj.Some? && m[Real(pivot)].obj.Some? && (dest == src || m[Real(dest)].obj.None?)))
            && (a != Code(OK) ==> st' == st)
  {
    hide Inv, Theory.Conjugate;
  }

  /** Where each capability is after a rotate: the pivot's in the destination, the source's in the pivot,
      nothing in the source; with the destination the source itself, the two have traded places. */
  lemma RotateEffect(st: State, dest: nat, pivot: nat, src: nat)
    requires Inv(st) && Step(st, OpRotate(dest, pivot, src)).1 == Code(OK)
    ensures var (m, st') := (st.slots, Step(st, OpRotate(dest, pivot, src)).0);
            var d, p, s := Real(dest), Real(pivot), Real(src);
            && d in m && p in m && s in m && OnlySlots(st, st')
            && Held(st'.slots[d]) == Held(m[p]) && Held(st'.slots[p]) == Held(m[s])
            && (d != s ==> st'.slots[s] == EMPTY)
            && (forall t :: t in m && t != d && t != p && t != s ==> Held(st'.slots[t]) == Held(m[t]))
  {
    hide Inv, Theory.Conjugate;
    var m, d, p, s := st.slots, Real(dest), Real(pivot), Real(src);
    var pi := RotatePerm(dest, pivot, src);
    RotateRelocates(st, dest, pivot, src);
    ConjugateKeys(m, pi);
    ConjugateAt(m, pi, p);
    ConjugateAt(m, pi, s);
    ConjugateAt(m, pi, d);
    forall t | t in m && t != d && t != p && t != s ensures Held(Theory.Conjugate(m, pi)[t]) == Held(m[t]) {
      ConjugateAt(m, pi, t);
    }
  }

  lemma RotateRelocates(st: State, dest: nat, pivot: nat, src: nat)
    requires Inv(st) && Rotate(st, dest, pivot, src).1 == Code(OK)
    ensures src != pivot && dest != pivot && Relocates(st.slots, RotatePerm(dest, pivot, src))
    ensures dest != src ==> st.slots[Real(dest)] == EMPTY
  {}

  /** And every link goes along: a capability's parent and children, in order, are where they went. */
  lemma RotateLinks(st: State, dest: nat, pivot: nat, src: nat, t: SlotId)
    requires Inv(st) && Step(st, OpRotate(dest, pivot, src)).1 == Code(OK) && t in st.slots
    ensures src != pivot && dest != pivot
    ensures var pi := if dest == src then Swap(Real(src), Real(pivot)) else Cycle(Real(pivot), Real(dest), Real(src));
            var (old', new') := (st.slots[t], Step(st, OpRotate(dest, pivot, src)).0.slots);
            pi.To(t) in new'
            && new'[pi.To(t)].parent == (if old'.parent.Some? then Some(pi.To(old'.parent.value)) else None)
            && |new'[pi.To(t)].children| == |old'.children|
            && forall i :: 0 <= i < |old'.children| ==> new'[pi.To(t)].children[i] == pi.To(old'.children[i])
  {
    hide Inv, Theory.Conjugate;
    RotateRelocates(st, dest, pivot, src);
    ConjugateAt(st.slots, RotatePerm(dest, pivot, src), t);
  }

  // ── revoke, reset ──────────────────────────────────────────────────────────

  lemma RevokeAnswers(st: State, n: nat)
    requires Inv(st)
    ensures var (st', a) := Step(st, OpRevoke(n));
            if Real(n) !in st.slots then (st', a) == (st, Code(ERR_INVALID_ARG))
            else if st.slots[Real(n)].obj.None? then (st', a) == (st, Code(ERR_NOT_FOUND))
            else a == Code(OK)
    ensures n == 0 ==> Step(st, OpSyscallRevoke(n)) == (st, Code(ERR_INVALID_ARG))
    ensures n != 0 && !Occupied(st.slots, Real(n)) ==> Step(st, OpSyscallRevoke(n)) == Step(st, OpRevoke(n))
    ensures n != 0 ==> Step(st, OpSyscallRevoke(n)).0 == Step(st, OpRevoke(n)).0
  {
    hide Inv, Theory.Revoke;
  }

  lemma UtResetAnswers(st: State, n: nat)
    requires Inv(st)
    ensures var (st', a) := Step(st, OpUtReset(n));
            st' == st
            && (a == Code(ERR_NOT_FOUND) <==> !Occupied(st.slots, Real(n)))
            && (Occupied(st.slots, Real(n)) ==>
                  var o := st.slots[Real(n)].obj.value;
                  o in st.objs
                  && (a == Code(ERR_INVALID_ARG) <==> st.objs[o].typ != Untyped)
                  && (a == Code(ERR_BUSY) <==> st.objs[o].typ == Untyped && st.slots[Real(n)].children != [])
                  && (a == Code(OK) <==> st.objs[o].typ == Untyped && st.slots[Real(n)].children == []))
  {
    hide Tree, Edges, Live, FrameTable, MappingAuthority;
  }

  // ── signal, poll ───────────────────────────────────────────────────────────

  /** The refusals of an invocation on a notification: outside the root CNode no answer at all, then the
      null slot, an empty one, another type, a missing right. */
  ghost predicate Refuses(st: State, n: nat, required: nat, a: Answer) {
    && (n >= st.cfg.spc ==> a == Silent)
    && (n < st.cfg.spc && (Real(n) !in st.slots || n == 0) ==> a == Code(ERR_INVALID_ARG))
    && (n < st.cfg.spc && Real(n) in st.slots && n != 0 ==>
          && (st.slots[Real(n)].obj.None? ==> a == Code(ERR_NOT_FOUND))
          && (Occupied(st.slots, Real(n)) && st.slots[Real(n)].obj.value in st.objs ==>
                && (st.objs[st.slots[Real(n)].obj.value].typ != Notification ==> a == Code(ERR_WRONG_TYPE))
                && (st.objs[st.slots[Real(n)].obj.value].typ == Notification && required !in st.slots[Real(n)].rights ==>
                      a == Code(ERR_ACCESS_DENIED))))
  }

  /** The slot names a notification and holds the right. */
  ghost predicate Invocable(st: State, n: nat, required: nat) {
    && 0 < n < st.cfg.spc && Occupied(st.slots, Real(n)) && st.slots[Real(n)].obj.value in st.objs
    && st.objs[st.slots[Real(n)].obj.value].typ == Notification && required in st.slots[Real(n)].rights
  }

  /** A word has one of the bits of a mask. */
  predicate Carries(w: bv64, mask: bv64) { w & mask != 0 }

  /** A signal sets exactly the bits of its pattern and leaves every other bit and object alone. */
  lemma SignalEffect(st: State, n: nat, pat: nat, mask: bv64)
    requires Inv(st)
    ensures var (st', a) := Step(st, OpSignal(n, pat));
            if !Invocable(st, n, WRITE) then st' == st && Refuses(st, n, WRITE, a)
            else
              var o := st.slots[Real(n)].obj.value;
              && a == Code(OK) && o in st'.objs && st' == st.(objs := st.objs[o := st.objs[o].(bits := st'.objs[o].bits)])
              && (Carries(st'.objs[o].bits, mask) <==> Carries(st.objs[o].bits, mask) || Carries(Pattern(pat), mask))
  {
    hide Inv, Signal, Merge, Pattern, Invocable, Refuses, Carries;
    SignalState(st, n, pat);
    if Invocable(st, n, WRITE) {
      OrMasks(SlotBits(st, n), Pattern(pat), mask);
    }
  }

  /** The word of the notification a slot names. */
  function SlotBits(st: State, n: nat): bv64 {
    if Occupied(st.slots, Real(n)) && st.slots[Real(n)].obj.value in st.objs then st.objs[st.slots[Real(n)].obj.value].bits else 0
  }

  lemma SignalState(st: State, n: nat, pat: nat)
    requires Inv(st)
    ensures var (st', a) := Signal(st, n, pat);
            if !Invocable(st, n, WRITE) then st' == st && Refuses(st, n, WRITE, a)
            else
              Occupied(st.slots, Real(n)) && var o := st.slots[Real(n)].obj.value;
              o in st.objs && a == Code(OK) && st' == st.(objs := st.objs[o := st.objs[o].(bits := Merge(st.objs[o].bits, Pattern(pat)))])
  {
    hide Tree, Edges, Live, FrameTable, MappingAuthority, Merge, Pattern;
  }

  /** The four patterns. */
  lemma PatternIs(pat: nat)
    ensures pat % 4 == 0 ==> Pattern(pat) == 1
    ensures pat % 4 == 1 ==> Pattern(pat) == 3
    ensures pat % 4 == 2 ==> Pattern(pat) == 0x8000000000000000
    ensures pat % 4 == 3 ==> Pattern(pat) == 0
  {}

  lemma OrMasks(v: bv64, w: bv64, mask: bv64)
    ensures Carries(Merge(v, w), mask) <==> Carries(v, mask) || Carries(w, mask)
  {
    hide Merge;
    OrDistributes(v, w, mask);
    OrZero(v & mask, w & mask);
  }

  lemma OrDistributes(v: bv64, w: bv64, mask: bv64)
    ensures Merge(v, w) & mask == Merge(v & mask, w & mask)
  {}

  lemma OrZero(v: bv64, w: bv64)
    ensures Merge(v, w) == 0 <==> v == 0 && w == 0
  {}

  /** A poll takes the whole word and leaves zero. */
  lemma PollEffect(st: State, n: nat)
    requires Inv(st)
    ensures var (st', a) := Step(st, OpPoll(n));
            if !Invocable(st, n, WAIT) then st' == st && Refuses(st, n, WAIT, a)
            else
              var o := st.slots[Real(n)].obj.value;
              && st' == st.(objs := st.objs[o := st.objs[o].(bits := 0)])
              && (st.objs[o].bits == 0 ==> a == Code(ERR_WOULD_BLOCK))
              && (st.objs[o].bits != 0 ==> a == Bits(st.objs[o].bits))
  {
    hide Tree, Edges, Live, FrameTable, MappingAuthority;
  }

  // ── map, unmap ─────────────────────────────────────────────────────────────

  lemma VMapAnswers(st: State, n: nat, va: int, space: nat)
    requires Inv(st)
    ensures var (st', a) := Step(st, OpVMap(n, va, space));
            && 0 < st.cfg.nspaces
            && (a == Silent <==> n >= st.cfg.ncnodes * st.cfg.spc)
            && (n < st.cfg.ncnodes * st.cfg.spc ==>
                  var s, k := st.slots[Real(n)], space % st.cfg.nspaces;
                  var frame := s.obj.Some? && s.obj.value in st.frames;
                  var busy := exists f :: f in st.maps && (k, va) in st.maps[f];
                  && (a == Code(ERR_WRONG_TYPE) <==> !frame)
                  && (a == Code(ERR_BUSY) <==> frame && busy)
                  && (a == Code(OK) <==> frame && !busy))
            && (a != Code(OK) ==> st' == st)
  {
    hide Tree, Edges, Live, MappingAuthority;
  }

  /** Mapping: one pair more, for the frame the slot names. If the space held nothing on that frame, it now
      holds what the slot holds, below the slot's parent, or below the slot when it has none. */
  lemma VMapEffect(st: State, n: nat, va: int, space: nat, f: nat)
    requires Inv(st) && Step(st, OpVMap(n, va, space)).1 == Code(OK)
    requires f < |st.frames| && Real(n) in st.slots && st.slots[Real(n)].obj == Some(st.frames[f])
    ensures 0 < st.cfg.nspaces
    ensures var (st', k) := (Step(st, OpVMap(n, va, space)).0, space % st.cfg.nspaces);
            var m, m', mc, s := st.slots, st'.slots, MapCap(f, k), st.slots[Real(n)];
            && st' == st.(slots := m', maps := st'.maps) && f in st.maps && st'.maps == st.maps[f := st.maps[f] + {(k, va)}]
            && (Occupied(m, mc) ==> m' == m)
            && (!Occupied(m, mc) ==>
                  var p := if s.parent.Some? then s.parent.value else Real(n);
                  && p in m && p != mc && m'.Keys == m.Keys + {mc}
                  && m'[mc] == Slot(s.obj, s.rights, s.badge, Some(p), [])
                  && m'[p] == m[p].(children := m[p].children + [mc])
                  && forall t :: t in m && t != mc && t != p ==> m'[t] == m[t])
  {
    hide Tree, Edges, Live, MappingAuthority, Numbered;
    ParentIsReal(st, Real(n));
    var g := FrameIndex(st.frames, st.frames[f]).value;
    assert g == f;
  }

  lemma VUnmapAnswers(st: State, f: nat, va: int, space: nat)
    requires Inv(st)
    ensures var (st', a) := Step(st, OpVUnmap(f, va, space));
            && 0 < st.cfg.nspaces
            && (a == Silent <==> f >= st.cfg.nframes)
            && (f < st.cfg.nframes ==>
                  var k := space % st.cfg.nspaces;
                  var mapped := f in st.maps && (k, va) in st.maps[f];
                  var elsewhere := exists g :: g in st.maps && g != f && (k, va) in st.maps[g];
                  && (a == Code(OK) <==> mapped)
                  && (a == Code(ERR_INVALID_ARG) <==> f < |st.frames| && elsewhere)
                  && (a == Code(ERR_NOT_FOUND) <==> !mapped && (f >= |st.frames| || !elsewhere)))
            && (a != Code(OK) ==> st' == st)
  {
    hide Tree, Edges, Live, MappingAuthority;
  }

  /** Unmapping: that pair is gone and no other. The space's capability on the frame stays, with every slot,
      exactly while another of its addresses maps the frame; with the last it goes, out of its parent's
      list, and no other slot changes. */
  lemma VUnmapEffect(st: State, f: nat, va: int, space: nat)
    requires Inv(st) && Step(st, OpVUnmap(f, va, space)).1 == Code(OK)
    ensures 0 < st.cfg.nspaces
    ensures var (st', k) := (Step(st, OpVUnmap(f, va, space)).0, space % st.cfg.nspaces);
            var m, m', mc := st.slots, st'.slots, MapCap(f, k);
            && st' == st.(slots := m', objs := st'.objs, maps := st'.maps)
            && st'.maps.Keys == st.maps.Keys && f in st.maps && (k, va) in st.maps[f]
            && (forall g, pr :: g in st.maps ==> (pr in st'.maps[g] <==> pr in st.maps[g] && !(g == f && pr == (k, va))))
            && (Occupied(m', mc) <==> exists pr :: pr in st.maps[f] && pr.0 == k && pr.1 != va)
            && (Occupied(m', mc) ==> m' == m && st'.objs == st.objs)
            && (!Occupied(m', mc) ==>
                  && mc in m && m'.Keys == m.Keys && m'[mc] == EMPTY && ObjectsSettled(st, st')
                  && (m[mc].parent.Some? ==>
                        var p := m[mc].parent.value;
                        p in m && m'[p] == m[p].(children := m'[p].children)
                        && exists i :: 0 <= i < |m[p].children| && m[p].children[i] == mc
                                       && m'[p].children == m[p].children[..i] + m[p].children[i + 1..])
                  && forall t :: t in m && t != mc && m[mc].parent != Some(t) ==> m'[t] == m[t])
  {
    hide Inv, Settle, Swept, Theory.Delete, ObjectsSettled;
    var k := NSpaces(st, space);
    VUnmapAnswers(st, f, va, space);
    UnmapMaps(st, f, k, va);
    LastUnmap(st, f, k, va);
  }

  lemma NSpaces(st: State, space: nat) returns (k: nat)
    requires Inv(st)
    ensures 0 < st.cfg.nspaces && k == space % st.cfg.nspaces
  {
    k := space % st.cfg.nspaces;
  }

  /** The slots once a mapping capability is deleted: it is a leaf, so only its parent's list changes. */
  lemma LastUnmap(st: State, f: nat, k: nat, va: int)
    requires Inv(st) && f in st.maps && (k, va) in st.maps[f]
    ensures var st1, mc := st.(maps := st.maps[f := st.maps[f] - {(k, va)}]), MapCap(f, k);
            && Occupied(st.slots, mc)
            && var m, st' := st.slots, Settle(st1, Theory.Delete(st.slots, mc));
               var m' := st'.slots;
               && st' == st.(slots := m', objs := st'.objs, maps := Swept(m', st1.maps)) && m' == Theory.Delete(m, mc)
               && m'.Keys == m.Keys && m'[mc] == EMPTY && ObjectsSettled(st, st')
               && (m[mc].parent.Some? ==>
                     var p := m[mc].parent.value;
                     p in m && m'[p] == m[p].(children := m'[p].children)
                     && exists i :: 0 <= i < |m[p].children| && m[p].children[i] == mc
                                    && m'[p].children == m[p].children[..i] + m[p].children[i + 1..])
               && forall t :: t in m && t != mc && m[mc].parent != Some(t) ==> m'[t] == m[t]
  {
    hide Edges, Live, Numbered, FrameTable, Theory.Without, Swept;
    var m, mc := st.slots, MapCap(f, k);
    assert MapsInto(st.maps, f, k) by { var pr := (k, va); assert pr in st.maps[f] && pr.0 == k; }
    assert m[mc].children == [];
    if m[mc].parent.Some? {
      var p := m[mc].parent.value;
      assert ChildOf(m, mc, p) && Lists(m, p, mc);
      NoSelfParent(m, mc);
      var i := WithoutAt(m[p].children, mc);
      assert Theory.Without(m[p].children, mc) + [] == m[p].children[..i] + m[p].children[i + 1..];
    }
  }

  lemma UnmapMaps(st: State, f: nat, k: nat, va: int)
    requires Inv(st) && f in st.maps && (k, va) in st.maps[f]
    ensures var maps := st.maps[f := st.maps[f] - {(k, va)}];
            && (MapsInto(maps, f, k) <==> exists pr :: pr in st.maps[f] && pr.0 == k && pr.1 != va)
            && (!MapsInto(maps, f, k) ==> Swept(Theory.Delete(st.slots, MapCap(f, k)), maps) == maps)
  {
    hide Edges, Live, Numbered, Theory.Without;
    var maps, mc := st.maps[f := st.maps[f] - {(k, va)}], MapCap(f, k);
    if pr :| pr in st.maps[f] && pr.0 == k && pr.1 != va { assert pr in maps[f]; }
    if !MapsInto(maps, f, k) {
      assert MapsInto(st.maps, f, k);
      var m' := Theory.Delete(st.slots, mc);
      forall g: nat, pr: (nat, int) | g in maps && pr in maps[g] ensures Occupied(m', MapCap(g, pr.0)) {
        assert MapsInto(st.maps, g, pr.0);
        assert MapsInto(maps, g, pr.0);
      }
      forall g: nat | g in maps ensures Swept(m', maps)[g] == maps[g] {}
    }
  }
}
