/** The executable authority model: one mutable object whose methods rewrite slots, objects and
    mappings step by step. Each method is proved to have the effect and the answer of the
    function of the same name in `Operations`.
 */
module Model {
  import opened Wrappers
  import opened Forest
  import opened Authority
  import Theory
  import Operations
  import opened Preservation

  /** The state after construction: every CSpace slot present and empty. */
  function Initial(cfg: Config): State {
    State(cfg, map s | s in RealSlots(cfg.ncnodes * cfg.spc) :: EMPTY, map[], 1, [], map[], 0)
  }

  function RealSlots(n: nat): set<SlotId> { set i: nat | i < n :: Real(i) }

  lemma InitialInv(cfg: Config)
    requires 0 < cfg.nspaces
    ensures Inv(Initial(cfg))
  {
    var st := Initial(cfg);
    forall s, p ensures !ChildOf(st.slots, s, p) && !Lists(st.slots, p, s) {}
    assert ParentsOf(st.slots) == map[];
    forall a ensures !Anc(map[], a, a) { AncUnfold(map[], a, a); }
  }

  /** The list with its first occurrence of `x` taken out. */
  function RemoveFirst(s: seq<SlotId>, x: SlotId): (r: seq<SlotId>)
    ensures NoDup(s) ==> r == Theory.Without(s, x)
  {
    if x !in s then s
    else
      var i := |s| - 1;
      assert s == s[..i] + [s[i]];
      NoDupSnoc(s[..i], s[i]);
      if x in s[..i] then RemoveFirst(s[..i], x) + [s[i]] else s[..i]
  }

  /** A slot leaves its parent's list and forgets its parent. */
  function Unlinked(m: Slots, s: SlotId): Slots
    requires s in m
  {
    var p := m[s].parent;
    var m1 := if p.Some? && p.value in m && s in m[p.value].children
              then m[p.value := m[p.value].(children := RemoveFirst(m[p.value].children, s))] else m;
    m1[s := m1[s].(parent := None)]
  }

  /** The slots after one capability is cleared. */
  function Cleared(m: Slots, s: SlotId): Slots
    requires s in m
  {
    var m1 := Unlinked(m, s);
    m1[s := m1[s].(obj := None, rights := {}, badge := 0)]
  }

  /** The mappings of one frame that survive a sweep of the first `n` spaces. */
  function Kept(m: Slots, f: nat, prs: set<(nat, int)>, n: nat): set<(nat, int)> {
    set pr | pr in prs && (pr.0 < n ==> Occupied(m, MapCap(f, pr.0)))
  }

  function SweptBelow(m: Slots, maps: Mappings, n: nat): Mappings {
    map f: nat | f in maps :: Kept(m, f, maps[f], n)
  }

  lemma KeptAll(m: Slots, f: nat, prs: set<(nat, int)>)
    ensures Kept(m, f, prs, 0) == prs
  {
    forall pr: (nat, int) ensures pr in Kept(m, f, prs, 0) <==> pr in prs {
      var (k, va) := pr;
      assert 0 <= k;
    }
  }

  /** Every slot of `ch` points at `p`. */
  function Adopted(m: Slots, ch: seq<SlotId>, p: Option<SlotId>): Slots {
    map t | t in m :: if t in ch then m[t].(parent := p) else m[t]
  }

  /** The slots while a delete reparents: `ch` are the children that have moved so far. */
  function Reparented(m: Slots, i: SlotId, ch: seq<SlotId>): Slots
    requires i in m
  {
    var r := Adopted(m, ch, m[i].parent);
    if m[i].parent.Some? && m[i].parent.value in m then
      var p := m[i].parent.value;
      r[p := r[p].(children := m[p].children + ch)]
    else r
  }

  lemma WithoutJoin(s: seq<SlotId>, t: seq<SlotId>, x: SlotId)
    ensures Theory.Without(s + t, x) == Theory.Without(s, x) + Theory.Without(t, x)
  {
    if t == [] {
      assert s + t == s;
    } else {
      var i := |t| - 1;
      assert (s + t)[..|s + t| - 1] == s + t[..i];
      WithoutJoin(s, t[..i], x);
    }
  }

  /** The statements of a delete, one after another, are the abstract delete. */
  lemma DeleteBySteps(m: Slots, i: SlotId)
    requires Tree(m) && i in m
    ensures var m1 := Reparented(m, i, m[i].children);
            i in m1 && Cleared(m1[i := m1[i].(children := [])], i) == Theory.Delete(m, i)
  {
    ReparentedAt(m, i);
    if m[i].parent.Some? {
      assert ChildOf(m, i, m[i].parent.value);
      ParentList(m, i, m[i].parent.value);
      ClearUnderParent(m, i, m[i].parent.value);
    }
  }

  lemma ClearUnderParent(m: Slots, i: SlotId, p: SlotId)
    requires i in m && p in m && p != i && m[i].parent == Some(p) && i !in m[i].children && p !in m[i].children
    requires RemoveFirst(m[p].children + m[i].children, i) == Theory.Without(m[p].children, i) + m[i].children
    requires i in m[p].children
    ensures var m1 := Reparented(m, i, m[i].children);
            Cleared(m1[i := m1[i].(children := [])], i) == Theory.Delete(m, i)
  {}

  /** What every slot holds once the children of `i` have moved. */
  lemma ReparentedAt(m: Slots, i: SlotId)
    requires Tree(m) && i in m
    ensures var ch, r := m[i].children, Reparented(m, i, m[i].children);
            && r.Keys == m.Keys && i !in ch && m[i].parent != Some(i) && r[i] == m[i]
            && (m[i].parent.Some? ==> m[i].parent.value in m && m[i].parent.value !in ch)
            && forall t :: t in m && t != i && m[i].parent != Some(t) ==>
                 r[t] == if t in ch then m[t].(parent := m[i].parent) else m[t]
  {
    NoSelfParent(m, i);
    forall t ensures t in m[i].children <==> ChildOf(m, t, i) { assert ChildOf(m, t, i) <==> Lists(m, i, t); }
    if m[i].parent.Some? { assert ChildOf(m, i, m[i].parent.value) && Lists(m, m[i].parent.value, i); }
  }

  lemma ParentList(m: Slots, i: SlotId, p: SlotId)
    requires Tree(m) && ChildOf(m, i, p)
    ensures p in m && p != i && i in m[p].children
    ensures RemoveFirst(m[p].children + m[i].children, i) == Theory.Without(m[p].children, i) + m[i].children
  {
    NoSelfParent(m, i);
    var ch := m[i].children;
    assert Lists(m, p, i);
    forall x | x in m[p].children ensures x !in ch {
      assert Lists(m, p, x) && ChildOf(m, x, p);
      assert ChildOf(m, x, i) <==> Lists(m, i, x);
    }
    NoDupJoin(m[p].children, ch);
    WithoutJoin(m[p].children, ch, i);
    assert i !in ch by { assert ChildOf(m, i, i) <==> Lists(m, i, i); }
  }

  /** One turn of the reparenting loop. */
  lemma ReparentOne(m: Slots, i: SlotId, j: nat)
    requires Tree(m) && i in m && j < |m[i].children|
    requires m[i].children[j] in m && m[i].children[j] != i
    requires m[i].parent.Some? ==> m[i].parent.value in m && m[i].parent.value !in m[i].children
    ensures var ch := m[i].children;
            var r := Reparented(m, i, ch[..j]);
            var r1 := r[ch[j] := r[ch[j]].(parent := m[i].parent)];
            Reparented(m, i, ch[..j + 1]) ==
              if m[i].parent.Some? then
                r1[m[i].parent.value := r1[m[i].parent.value].(children := r1[m[i].parent.value].children + [ch[j]])]
              else r1
  {
    hide Tree;
    var ch := m[i].children;
    assert ch[..j + 1] == ch[..j] + [ch[j]];
    if m[i].parent.Some? {
      assert m[m[i].parent.value].children + (ch[..j] + [ch[j]]) == m[m[i].parent.value].children + ch[..j] + [ch[j]];
    }
  }

  /** A delete carried out by statements has the effect of the abstract operation. */
  lemma DeleteDone(st: State, n: nat, objs: Objects, maps: Mappings)
    requires Inv(st) && Occupied(st.slots, Real(n))
    requires var m, o := Theory.Delete(st.slots, Real(n)), st.slots[Real(n)].obj.value;
             && objs == (if Named(m, o) then st.objs else st.objs[o := st.objs[o].(alive := false)])
             && maps == SweptBelow(m, st.maps, st.cfg.nspaces)
    ensures st.(slots := Theory.Delete(st.slots, Real(n)), objs := objs, maps := maps) == Operations.Delete(st, n).0
  {
    ObjectsSettle(st, Theory.Delete(st.slots, Real(n)), Real(n));
    SweepSettle(st, Theory.Delete(st.slots, Real(n)));
  }

  /** The object table after one capability is gone. */
  lemma ObjectsSettle(st: State, m: Slots, i: SlotId)
    requires Inv(st) && Occupied(st.slots, i) && m.Keys == st.slots.Keys && m[i].obj.None?
    requires forall t :: t in m && t != i ==> m[t].obj == st.slots[t].obj
    ensures var o := st.slots[i].obj.value;
            (if Named(m, o) then st.objs else st.objs[o := st.objs[o].(alive := false)])
            == Operations.Settle(st, m).objs
  {
    var o := st.slots[i].obj.value;
    assert Named(st.slots, o);
    forall o': nat | o' != o ensures Named(m, o') <==> Named(st.slots, o') {
      if Named(st.slots, o') { var t :| t in st.slots && st.slots[t].obj == Some(o'); assert m[t].obj == Some(o'); }
    }
  }

  lemma SweepSettle(st: State, m: Slots)
    requires FrameTable(st.cfg, st.objs, st.frames, st.maps)
    ensures SweptBelow(m, st.maps, st.cfg.nspaces) == Operations.Settle(st, m).maps
  {
    forall f: nat | f in st.maps
      ensures SweptBelow(m, st.maps, st.cfg.nspaces)[f] == Operations.Settle(st, m).maps[f]
    {
      assert forall pr :: pr in st.maps[f] ==> pr.0 < st.cfg.nspaces;
    }
  }

  /** What the invariant says about one slot, for use where its definition is out of sight. */
  lemma InvParts(st: State, s: SlotId)
    requires Inv(st) && s in st.slots
    ensures Tree(st.slots)
    ensures st.slots[s].obj.Some? ==> st.slots[s].obj.value in st.objs
    ensures st.slots[s].obj.None? ==> st.slots[s] == EMPTY
  {}

  class AuthorityModel {
    const cfg: Config
    var slots: Slots
    var objs: Objects
    var nextOid: nat
    var lastRevoked: nat
    var frames: seq<nat>
    var maps: Mappings

    /** The whole state as a value. */
    ghost function St(): State
      reads this
    {
      State(cfg, slots, objs, nextOid, frames, maps, lastRevoked)
    }

    ghost predicate Valid()
      reads this
    {
      Inv(St())
    }

    constructor (ncnodes: nat, spc: nat, nframes: nat, nspaces: nat)
      requires 0 < nspaces
      ensures Valid() && St() == Initial(Config(ncnodes, spc, nframes, nspaces))
    {
      cfg := Config(ncnodes, spc, nframes, nspaces);
      slots := map s | s in RealSlots(ncnodes * spc) :: EMPTY;
      objs, nextOid, lastRevoked, frames, maps := map[], 1, 0, [], map[];
      InitialInv(Config(ncnodes, spc, nframes, nspaces));
    }

    // ── helpers ──────────────────────────────────────────────────────────────

    method NewObj(t: ObjType) returns (oid: nat)
      modifies this`objs, this`nextOid
      ensures oid == old(nextOid) && nextOid == old(nextOid) + 1
      ensures objs == old(objs)[oid := Obj(t, 0, true)]
    {
      oid := nextOid;
      nextOid := nextOid + 1;
      objs := objs[oid := Obj(t, 0, true)];
    }

    /** Every slot below `sid`, depth first, each exactly once. */
    method Descendants(sid: SlotId) returns (out: seq<SlotId>)
      requires sid in slots && Tree(slots)
      ensures NoDup(out)
      ensures forall x :: x in out <==> Ancestor(slots, sid, x)
      ensures |out| == |Desc(ParentsOf(slots), sid)|
    {
      ghost var p := ParentsOf(slots);
      out := [];
      var stack := slots[sid].children;
      FirstLayer(slots, sid);
      while stack != []
        invariant NoDup(out) && NoDup(stack)
        invariant forall x :: x in out ==> x !in stack
        invariant forall x :: x in out || x in stack ==> x in slots && Anc(p, sid, x)
        invariant forall x, q :: ChildOf(slots, x, q) ==>
                    ((x in out || x in stack) <==> (q == sid || q in out))
        decreases |slots| - |out|
      {
        var c := stack[|stack| - 1];
        assert c in stack;
        Visit(slots, sid, out, stack);
        out := out + [c];
        stack := stack[..|stack| - 1] + slots[c].children;
      }
      forall x | Anc(p, sid, x) ensures x in out {
        forall y | y in p && (p[y] == sid || p[y] in Elems(out)) ensures y in Elems(out) {
          assert ChildOf(slots, y, p[y]);
        }
        ClosedContains(p, Elems(out), sid, x);
      }
      NoDupSize(out);
      assert Desc(p, sid) == Elems(out) by {
        forall z | Anc(p, sid, z) ensures z in p { AncUnfold(p, sid, z); }
      }
    }

    method Unlink(sid: SlotId)
      requires sid in slots
      modifies this`slots
      ensures slots == Unlinked(old(slots), sid)
    {
      var p := slots[sid].parent;
      if p.Some? && p.value in slots && sid in slots[p.value].children {
        slots := slots[p.value := slots[p.value].(children := RemoveFirst(slots[p.value].children, sid))];
      }
      slots := slots[sid := slots[sid].(parent := None)];
    }

    /** Empties one slot, collects its object if nothing names it any more, and sweeps. */
    method Clear(sid: SlotId)
      requires sid in slots
      requires slots[sid].obj.Some? ==> slots[sid].obj.value in objs
      modifies this`slots, this`objs, this`maps
      ensures slots == Cleared(old(slots), sid)
      ensures var o := old(slots[sid].obj);
              objs == if o.Some? && !Named(slots, o.value)
                      then old(objs)[o.value := old(objs)[o.value].(alive := false)] else old(objs)
      ensures maps == SweptBelow(slots, old(maps), cfg.nspaces)
    {
      var oid := slots[sid].obj;
      Unlink(sid);
      slots := slots[sid := slots[sid].(obj := None, rights := {}, badge := 0)];
      if oid.Some? && !Named(slots, oid.value) {
        objs := objs[oid.value := objs[oid.value].(alive := false)];
      }
      FinaliseOrphans();
    }

    /** Unmaps wherever a space no longer holds a capability for what it mapped. */
    method FinaliseOrphans()
      modifies this`maps
      ensures maps == SweptBelow(slots, old(maps), cfg.nspaces)
    {
      var todo := maps.Keys;
      while todo != {}
        invariant todo <= maps.Keys == old(maps).Keys
        invariant forall f: nat :: f in todo ==> maps[f] == old(maps)[f]
        invariant forall f: nat :: f in maps && f !in todo ==> maps[f] == Kept(slots, f, old(maps)[f], cfg.nspaces)
        decreases |todo|
      {
        var f: nat :| f in todo;
        SweepFrame(f);
        todo := todo - {f};
      }
    }

    /** The sweep's inner loop: one frame, every space. */
    method SweepFrame(f: nat)
      requires f in maps
      modifies this`maps
      ensures maps == old(maps)[f := Kept(slots, f, old(maps)[f], cfg.nspaces)]
    {
      KeptAll(slots, f, maps[f]);
      for k := 0 to cfg.nspaces
        invariant maps == old(maps)[f := Kept(slots, f, old(maps)[f], k)]
      {
        if !Occupied(slots, MapCap(f, k)) {
          maps := maps[f := set pr | pr in maps[f] && pr.0 != k];
        }
        assert maps[f] == Kept(slots, f, old(maps)[f], k + 1);
      }
    }

    // ── the operations ───────────────────────────────────────────────────────

    /** Empties one slot; its children are reparented to its parent. */
    method Delete(n: nat) returns (a: Answer)
      requires Valid()
      modifies this
      ensures Valid() && (St(), a) == Operations.Delete(old(St()), n)
    {
      ghost var st := St();
      hide Inv;
      DeleteInv(st, n);
      var sid := Real(n);
      if sid !in slots { return Code(ERR_INVALID_ARG); }
      if slots[sid].obj.None? { return Code(OK); }
      InvParts(st, sid);
      DeleteOccupied(sid);
      DeleteDone(st, n, objs, maps);
      return Code(OK);
    }

    /** The statements of a delete on an occupied slot. */
    method DeleteOccupied(sid: SlotId)
      requires Tree(slots) && Occupied(slots, sid) && slots[sid].obj.value in objs
      modifies this`slots, this`objs, this`maps
      ensures slots == Theory.Delete(old(slots), sid)
      ensures var o := old(slots)[sid].obj.value;
              objs == if Named(slots, o) then old(objs) else old(objs)[o := old(objs)[o].(alive := false)]
      ensures maps == SweptBelow(slots, old(maps), cfg.nspaces)
    {
      DeleteBySteps(slots, sid);
      ReparentedAt(slots, sid);
      hide Tree;
      ReparentChildren(sid);
      slots := slots[sid := slots[sid].(children := [])];
      Clear(sid);
    }

    /** The loop of a delete: every child is given to the parent, in order. */
    method ReparentChildren(sid: SlotId)
      requires sid in slots && Tree(slots)
      modifies this`slots
      ensures slots == Reparented(old(slots), sid, old(slots)[sid].children)
    {
      ghost var m := slots;
      var p, ch := slots[sid].parent, slots[sid].children;
      ReparentedAt(m, sid);
      assert p.Some? ==> m[p.value].children + [] == m[p.value].children;
      assert Reparented(m, sid, []) == m;
      for j := 0 to |ch|
        invariant slots == Reparented(m, sid, ch[..j])
      {
        assert Lists(m, sid, ch[j]) && ChildOf(m, ch[j], sid);
        ReparentOne(m, sid, j);
        slots := slots[ch[j] := slots[ch[j]].(parent := p)];
        if p.Some? {
          slots := slots[p.value := slots[p.value].(children := slots[p.value].children + [ch[j]])];
        }
      }
      assert ch[..|ch|] == ch;
    }

    /** A fresh object in a parentless slot; an occupied slot is deleted first. */
    method Seed(n: nat, t: ObjType, rights: Rights) returns (a: Answer)
      requires Valid()
      modifies this
      ensures Valid() && (St(), a) == Operations.Seed(old(St()), n, t, rights)
    {
      ghost var st := St();
      hide Inv;
      SeedInv(st, n, t, rights);
      var sid := Real(n);
      if sid !in slots { return Code(ERR_INVALID_ARG); }
      if slots[sid].obj.Some? { var _ := Delete(n); }
      DeleteInv(st, n);
      var oid := NewObj(t);
      slots := slots[sid := slots[sid].(obj := Some(oid), rights := rights, badge := 0, parent := None)];
      return Code(OK);
    }

    method InstallUntyped(n: nat) returns (a: Answer)
      requires Valid()
      modifies this
      ensures Valid() && (St(), a) == Operations.InstallUntyped(old(St()), n)
    {
      a := Seed(n, Untyped, {READ, WRITE, DUPLICATE, TRANSFER});
    }

    /** A new object carved from an Untyped, its capability a child of the Untyped's. */
    method Retype(ut: nat, t: ObjType, dst: nat) returns (a: Answer)
      requires Valid()
      modifies this
      ensures Valid() && (St(), a) == Operations.Retype(old(St()), ut, t, dst)
    {
      ghost var st := St();
      hide Domain, Tree, Edges, Live, FrameTable, MappingAuthority;
      RetypeInv(st, ut, t, dst);
      if Real(ut) !in slots || Real(dst) !in slots { return Code(ERR_INVALID_ARG); }
      if ut == 0 { return Code(ERR_INVALID_ARG); }
      InvParts(st, Real(ut));
      InvParts(st, Real(dst));
      var u := slots[Real(ut)];
      if u.obj.None? { return Code(ERR_NOT_FOUND); }
      if objs[u.obj.value].typ != Untyped { return Code(ERR_WRONG_TYPE); }
      if WRITE !in u.rights { return Code(ERR_ACCESS_DENIED); }
      if dst == 0 { return Code(ERR_INVALID_ARG); }
      if slots[Real(dst)].obj.Some? { return Code(ERR_ALREADY_EXISTS); }
      var oid := NewObj(t);
      slots := slots[Real(dst) := slots[Real(dst)].(obj := Some(oid), rights := Operations.BirthRights(t),
                                                    badge := 0, parent := Some(Real(ut)))];
      slots := slots[Real(ut) := slots[Real(ut)].(children := slots[Real(ut)].children + [Real(dst)])];
      return Code(OK);
    }

    /** Derives a copy: rights only shrink, and a badge is inherited, kept or freshly stamped. */
    method Mint(src: nat, dst: nat, rights: Rights, badge: int) returns (a: Answer)
      requires Valid()
      modifies this
      ensures Valid() && (St(), a) == Operations.Mint(old(St()), src, dst, rights, badge)
    {
      ghost var st := St();
      hide Domain, Tree, Edges, Live, FrameTable, MappingAuthority;
      MintInv(st, src, dst, rights, badge);
      if Real(src) !in slots || Real(dst) !in slots { return Code(ERR_INVALID_ARG); }
      InvParts(st, Real(src));
      InvParts(st, Real(dst));
      if src == dst { return Code(ERR_INVALID_ARG); }
      var s := slots[Real(src)];
      if s.obj.None? { return Code(ERR_NOT_FOUND); }
      if DUPLICATE !in s.rights { return Code(ERR_ACCESS_DENIED); }
      var newRights := rights * s.rights;
      if newRights == {} { return Code(ERR_INVALID_ARG); }
      var newBadge;
      if badge == 0 {
        newBadge := s.badge;
      } else if s.badge != 0 {
        if s.badge != badge { return Code(ERR_ACCESS_DENIED); }
        newBadge := s.badge;
      } else {
        if objs[s.obj.value].typ != Endpoint && objs[s.obj.value].typ != Notification {
          return Code(ERR_INVALID_ARG);
        }
        newBadge := badge;
      }
      if slots[Real(dst)].obj.Some? { return Code(ERR_ALREADY_EXISTS); }
      slots := slots[Real(dst) := slots[Real(dst)].(obj := s.obj, rights := newRights, badge := newBadge,
                                                    parent := Some(Real(src)))];
      slots := slots[Real(src) := slots[Real(src)].(children := slots[Real(src)].children + [Real(dst)])];
      assert newRights == s.rights * rights;
      return Code(OK);
    }

    method SyscallMint(src: nat, dst: nat, rights: Rights, badge: int) returns (a: Answer)
      requires Valid()
      modifies this
      ensures Valid() && (St(), a) == Operations.SyscallMint(old(St()), src, dst, rights, badge)
    {
      hide Inv;
      if src == 0 || dst == 0 { return Code(ERR_INVALID_ARG); }
      if Real(src) !in slots { return Code(ERR_INVALID_ARG); }
      if slots[Real(src)].obj.None? { return Code(ERR_NOT_FOUND); }
      a := Mint(src, dst, rights, badge);
    }

    /** Destroys the subtree and not its root. */
    method Revoke(n: nat) returns (a: Answer)
      requires Valid()
      modifies this
      ensures Valid() && (St(), a) == Operations.Revoke(old(St()), n)
    {
      ghost var st := St();
      hide Inv;
      RevokeInv(st, n);
      var sid := Real(n);
      if sid !in slots { return Code(ERR_INVALID_ARG); }
      if slots[sid].obj.None? { return Code(ERR_NOT_FOUND); }
      InvParts(st, sid);
      var victims := Descendants(sid);
      hide Tree;
      ClearAll(sid, victims);
      RevokeDone(st, slots, sid, victims);
      slots := slots[sid := slots[sid].(children := [])];
      lastRevoked := |victims|;
      return Code(OK);
    }

    /** The loop of a revoke: the victims are cleared one by one. */
    method ClearAll(sid: SlotId, victims: seq<SlotId>)
      requires Valid() && sid in slots && Victims(slots, sid, victims)
      modifies this`slots, this`objs, this`maps
      ensures Revoking(old(St()), slots, sid, victims, |victims|)
      ensures objs == Operations.Settle(old(St()), slots).objs && maps == Operations.Settle(old(St()), slots).maps
    {
      ghost var st := St();
      hide Inv;
      RevokeStart(st, sid, victims);
      hide Victims, Operations.Settle;
      for j := 0 to |victims|
        invariant Revoking(st, slots, sid, victims, j)
        invariant objs == Operations.Settle(st, slots).objs && maps == Operations.Settle(st, slots).maps
        invariant objs.Keys == st.objs.Keys
      {
        var d := victims[j];
        RevokeTurn(st, slots, sid, victims, j);
        slots := slots[d := slots[d].(children := [])];
        Clear(d);
      }
    }

    /** Answers the count destroyed. */
    method SyscallRevoke(n: nat) returns (a: Answer)
      requires Valid()
      modifies this
      ensures Valid() && (St(), a) == Operations.SyscallRevoke(old(St()), n)
    {
      hide Inv;
      if n == 0 { return Code(ERR_INVALID_ARG); }
      var r := Revoke(n);
      if r != Code(OK) { return r; }
      return Code(lastRevoked);
    }

    method UtReset(n: nat) returns (a: Answer)
      requires Valid()
      ensures a == Operations.UtReset(St(), n)
    {
      if Real(n) !in slots || slots[Real(n)].obj.None? { return Code(ERR_NOT_FOUND); }
      if objs[slots[Real(n)].obj.value].typ != Untyped { return Code(ERR_INVALID_ARG); }
      if slots[Real(n)].children != [] { return Code(ERR_BUSY); }
      return Code(OK);
    }

    // ── relocation ───────────────────────────────────────────────────────────

    /** Every slot of `ch` is pointed at `p`. */
    method SetParents(ch: seq<SlotId>, p: SlotId)
      requires forall c :: c in ch ==> c in slots
      modifies this`slots
      ensures slots == Adopted(old(slots), ch, Some(p))
    {
      assert slots == Adopted(slots, ch[..0], Some(p));
      for j := 0 to |ch|
        invariant slots == Adopted(old(slots), ch[..j], Some(p))
      {
        assert ch[..j + 1] == ch[..j] + [ch[j]];
        slots := slots[ch[j] := slots[ch[j]].(parent := Some(p))];
      }
      assert ch[..|ch|] == ch;
    }

    /** Moves a capability and its place in the tree into an empty slot. */
    method Relocate(frm: SlotId, to: SlotId)
      requires Tree(slots) && Occupied(slots, frm) && to in slots && slots[to] == EMPTY
      requires !frm.MapCap? && !to.MapCap?
      modifies this`slots
      ensures slots == Theory.Conjugate(old(slots), Swap(frm, to))
    {
      ghost var m := slots;
      RelocateLinks(m, frm, to);
      hide Tree;
      var f := slots[frm];
      slots := slots[to := slots[to].(obj := f.obj, rights := f.rights, badge := f.badge, parent := f.parent)];
      if f.parent.Some? {
        var ch := slots[f.parent.value].children;
        slots := slots[f.parent.value := slots[f.parent.value].(children := ch[IndexOf(ch, frm) := to])];
      }
      slots := slots[to := slots[to].(children := f.children)];
      SetParents(f.children, to);
      slots := slots[frm := EMPTY];
      RelocateBySteps(m, frm, to);
    }

    method Move(src: nat, dst: nat) returns (a: Answer)
      requires Valid()
      modifies this
      ensures Valid() && (St(), a) == Operations.Move(old(St()), src, dst)
    {
      ghost var st := St();
      hide Inv;
      MoveInv(st, src, dst);
      if Real(src) !in slots || Real(dst) !in slots { return Code(ERR_INVALID_ARG); }
      if src == 0 || dst == 0 { return Code(ERR_INVALID_ARG); }
      if slots[Real(src)].obj.None? { return Code(ERR_NOT_FOUND); }
      if src == dst { return Code(ERR_INVALID_ARG); }
      if slots[Real(dst)].obj.Some? { return Code(ERR_ALREADY_EXISTS); }
      InvParts(st, Real(dst));
      ghost var m := slots;
      RelocateLinks(m, Real(src), Real(dst));
      hide Tree;
      var f := slots[Real(src)];
      slots := slots[Real(dst) := slots[Real(dst)].(obj := f.obj, rights := f.rights, badge := f.badge, parent := f.parent)];
      if f.parent.Some? {
        var p := f.parent.value;
        slots := slots[p := slots[p].(children := RemoveFirst(slots[p].children, Real(src)))];
        slots := slots[p := slots[p].(children := slots[p].children + [Real(dst)])];
      }
      slots := slots[Real(dst) := slots[Real(dst)].(children := f.children)];
      SetParents(f.children, Real(dst));
      slots := slots[Real(src) := EMPTY];
      MoveBySteps(m, Real(src), Real(dst));
      return Code(OK);
    }

    method Rotate(dest: nat, pivot: nat, src: nat) returns (a: Answer)
      requires Valid()
      modifies this
      ensures Valid() && (St(), a) == Operations.Rotate(old(St()), dest, pivot, src)
    {
      ghost var st := St();
      hide Inv;
      RotateInv(st, dest, pivot, src);
      if Real(dest) !in slots || Real(pivot) !in slots || Real(src) !in slots { return Code(ERR_INVALID_ARG); }
      if src == pivot || dest == pivot { return Code(ERR_INVALID_ARG); }
      if slots[Real(src)].obj.None? || slots[Real(pivot)].obj.None? { return Code(ERR_NOT_FOUND); }
      if dest != src && slots[Real(dest)].obj.Some? { return Code(ERR_ALREADY_EXISTS); }
      InvParts(st, Real(dest));
      if dest == src {
        SwapThroughTemp(st, pivot, src);
        slots := slots[Temp := EMPTY];
        Relocate(Real(src), Temp);
        Relocate(Real(pivot), Real(dest));
        Relocate(Temp, Real(pivot));
        slots := slots - {Temp};
      } else {
        CycleInTwo(st, dest, pivot, src);
        Relocate(Real(pivot), Real(dest));
        Relocate(Real(src), Real(pivot));
      }
      return Code(OK);
    }

    // ── notifications ────────────────────────────────────────────────────────

    /** The object a notification capability names, or the refusal. */
    method ResolveNotification(n: nat, required: nat) returns (r: Operations.Resolved)
      requires Valid()
      ensures r == Operations.Resolve(St(), n, required)
    {
      if n >= cfg.spc { return Operations.Refused(Silent); }
      if Real(n) !in slots || n == 0 { return Operations.Refused(Code(ERR_INVALID_ARG)); }
      var s := slots[Real(n)];
      if s.obj.None? { return Operations.Refused(Code(ERR_NOT_FOUND)); }
      if objs[s.obj.value].typ != Notification { return Operations.Refused(Code(ERR_WRONG_TYPE)); }
      if required !in s.rights { return Operations.Refused(Code(ERR_ACCESS_DENIED)); }
      return Operations.Resolved(s.obj.value);
    }

    method Signal(n: nat, pat: nat) returns (a: Answer)
      requires Valid()
      modifies this
      ensures Valid() && (St(), a) == Operations.Signal(old(St()), n, pat)
    {
      hide Inv, Operations.Raise;
      SignalInv(St(), n, pat);
      var r := ResolveNotification(n, WRITE);
      if r.Refused? { return r.answer; }
      objs := objs[r.oid := objs[r.oid].(bits := Operations.Raise(objs[r.oid].bits, pat))];
      return Code(OK);
    }

    /** An exchange, not a read: polling consumes. */
    method Poll(n: nat) returns (a: Answer)
      requires Valid()
      modifies this
      ensures Valid() && (St(), a) == Operations.Poll(old(St()), n)
    {
      hide Inv;
      PollInv(St(), n);
      var r := ResolveNotification(n, WAIT);
      if r.Refused? { return r.answer; }
      var got := objs[r.oid].bits;
      objs := objs[r.oid := objs[r.oid].(bits := 0)];
      if got == 0 { return Code(ERR_WOULD_BLOCK); }
      return Bits(got);
    }

    // ── address spaces ───────────────────────────────────────────────────────

    method FrameIndexOf(oid: nat) returns (r: Option<nat>)
      ensures r == Operations.FrameIndex(frames, oid)
    {
      for i := 0 to |frames|
        invariant oid !in frames[..i]
        invariant Operations.FrameIndex(frames[..i], oid) == None
      {
        assert frames[..i + 1][..i] == frames[..i];
        if frames[i] == oid {
          FrameIndexFirst(frames, oid, i);
          return Some(i);
        }
      }
      assert frames[..|frames|] == frames;
      return None;
    }

    method VFrame(n: nat) returns (a: Answer)
      requires Valid()
      modifies this
      ensures Valid() && (St(), a) == Operations.VFrame(old(St()), n)
    {
      hide Inv;
      VFrameInv(St(), n);
      if n >= cfg.spc || |frames| >= cfg.nframes { return Silent; }
      a := Seed(n, Frame, {READ, WRITE, DUPLICATE});
      if a == Code(OK) {
        frames := frames + [slots[Real(n)].obj.value];
        maps := maps[|frames| - 1 := {}];
      }
    }

    /** Maps through a slot, installing the space's capability on its first mapping of the frame. */
    method VMap(n: nat, va: int, space: nat) returns (a: Answer)
      requires Valid()
      modifies this
      ensures Valid() && (St(), a) == Operations.VMap(old(St()), n, va, space)
    {
      ghost var st := St();
      hide Domain, Tree, Edges, Live;
      VMapInv(st, n, va, space);
      RealSlotsExist(st, n);
      if Real(n) !in slots || n >= cfg.ncnodes * cfg.spc { return Silent; }
      var s := slots[Real(n)];
      if s.obj.None? || objs[s.obj.value].typ != Frame { return Code(ERR_WRONG_TYPE); }
      var fi := FrameIndexOf(s.obj.value);
      if fi.None? { return Code(ERR_WRONG_TYPE); }
      var k := space % cfg.nspaces;
      if exists f :: f in maps && (k, va) in maps[f] { return Code(ERR_BUSY); }
      var mc := MapCap(fi.value, k);
      ParentIsReal(st, Real(n));
      MapCapBlank(st, mc);
      GrantMapCap(Real(n), mc);
      maps := maps[fi.value := maps[fi.value] + {(k, va)}];
      return Code(OK);
    }

    /** Installs the space's capability if it has none on this frame. */
    method GrantMapCap(sid: SlotId, mc: SlotId)
      requires Occupied(slots, sid) && sid != mc && slots[sid].parent != Some(mc)
      requires slots[sid].parent.Some? ==> slots[sid].parent.value in slots
      requires mc in slots && slots[mc].obj.None? ==> slots[mc] == EMPTY
      modifies this`slots
      ensures slots == Operations.GrantMapCap(old(slots), sid, mc)
    {
      var s := slots[sid];
      if mc !in slots || slots[mc].obj.None? {
        slots := slots[mc := EMPTY];
        slots := slots[mc := slots[mc].(obj := s.obj, rights := s.rights, badge := s.badge)];
        var par := if s.parent.Some? then s.parent.value else sid;
        slots := slots[mc := slots[mc].(parent := Some(par))];
        slots := slots[par := slots[par].(children := slots[par].children + [mc])];
      }
    }

    /** Unmaps one address; the space's capability goes with its last mapping of the frame. */
    method VUnmap(f: nat, va: int, space: nat) returns (a: Answer)
      requires Valid()
      modifies this
      ensures Valid() && (St(), a) == Operations.VUnmap(old(St()), f, va, space)
    {
      ghost var st := St();
      hide Domain, Tree, Edges, Live;
      VUnmapInv(st, f, va, space);
      if f >= cfg.nframes { return Silent; }
      var k := space % cfg.nspaces;
      if f >= |frames| || f !in maps { return Code(ERR_NOT_FOUND); }
      if (k, va) !in maps[f] {
        if exists g :: g in maps && g != f && (k, va) in maps[g] { return Code(ERR_INVALID_ARG); }
        return Code(ERR_NOT_FOUND);
      }
      maps := maps[f := maps[f] - {(k, va)}];
      if !MapsInto(maps, f, k) {
        var mc := MapCap(f, k);
        if mc in slots && slots[mc].obj.Some? {
          ClearMapCap(st, mc);
          Clear(mc);
          UnmapDone(st, f, k, va, objs, maps);
        }
      }
      return Code(OK);
    }
  }

  lemma FirstLayer(m: Slots, sid: SlotId)
    requires sid in m && Tree(m)
    ensures forall x :: x in m[sid].children ==> x in m && Ancestor(m, sid, x)
    ensures forall x, q :: ChildOf(m, x, q) ==> (x in m[sid].children <==> q == sid)
  {
    forall x ensures x in m[sid].children ==> x in m && Ancestor(m, sid, x) {
      assert Lists(m, sid, x) <==> ChildOf(m, x, sid);
      AncUnfold(ParentsOf(m), sid, x);
    }
    forall x, q | ChildOf(m, x, q) ensures x in m[sid].children <==> q == sid {
      assert Lists(m, sid, x) <==> ChildOf(m, x, sid);
    }
  }

  /** One turn of the depth-first loop: the last slot on the stack is visited and its children pushed. */
  lemma Visit(m: Slots, sid: SlotId, out: seq<SlotId>, stack: seq<SlotId>)
    requires sid in m && Tree(m) && stack != []
    requires NoDup(out) && NoDup(stack)
    requires forall x :: x in out ==> x !in stack
    requires forall x :: x in out || x in stack ==> x in m && Ancestor(m, sid, x)
    requires forall x, q :: ChildOf(m, x, q) ==> ((x in out || x in stack) <==> (q == sid || q in out))
    ensures var c := stack[|stack| - 1];
            var out', stack' := out + [c], stack[..|stack| - 1] + m[c].children;
            && NoDup(out') && NoDup(stack')
            && (forall x :: x in out' ==> x !in stack')
            && (forall x :: x in out' || x in stack' ==> x in m && Ancestor(m, sid, x))
            && (forall x, q :: ChildOf(m, x, q) ==> ((x in out' || x in stack') <==> (q == sid || q in out')))
            && |out'| <= |m|
  {
    var p, i := ParentsOf(m), |stack| - 1;
    var c, rest := stack[i], stack[..i];
    assert stack == rest + [c];
    assert c in stack;
    NoDupSnoc(rest, c);
    NoDupSnoc(out, c);
    forall x | x in m[c].children
      ensures x in m && ChildOf(m, x, c) && Anc(p, sid, x) && x !in out && x !in stack && x != c
    {
      assert Lists(m, c, x);
      assert ChildOf(m, x, c);
      AncUnfold(p, sid, x);
    }
    NoDupJoin(rest, m[c].children);
    forall x, q | ChildOf(m, x, q)
      ensures (x in out + [c] || x in rest + m[c].children) <==> (q == sid || q in out + [c])
    {
      assert Lists(m, c, x) <==> ChildOf(m, x, c);
    }
    NoDupSize(out + [c]);
    SubsetSize(Elems(out + [c]), m.Keys);
  }

  // ── revoke, turn by turn ───────────────────────────────────────────────────

  /** Inside a revoke: the first `j` victims are empty, the others have only lost children, the
      root has only lost children, and nothing else has changed. */
  ghost predicate Revoking(st: State, m: Slots, sid: SlotId, victims: seq<SlotId>, j: nat) {
    && j <= |victims| && m.Keys == st.slots.Keys && sid in m
    && (forall t :: t in victims[..j] ==> t in m && m[t] == EMPTY)
    && (forall t :: t in victims[j..] ==> t in m && m[t] == st.slots[t].(children := m[t].children))
    && (forall t :: t in m && t != sid && t !in victims ==> m[t] == st.slots[t])
    && m[sid] == st.slots[sid].(children := m[sid].children)
  }

  /** The victims are the strict descendants, each listed once. */
  ghost predicate Victims(m: Slots, sid: SlotId, victims: seq<SlotId>) {
    NoDup(victims) && forall x :: x in victims <==> Ancestor(m, sid, x)
  }

  lemma RevokeStart(st: State, sid: SlotId, victims: seq<SlotId>)
    requires Inv(st) && sid in st.slots && Victims(st.slots, sid, victims)
    ensures Revoking(st, st.slots, sid, victims, 0)
    ensures st.objs == Operations.Settle(st, st.slots).objs && st.maps == Operations.Settle(st, st.slots).maps
  {
    forall x | x in victims ensures x in st.slots { AncUnfold(ParentsOf(st.slots), sid, x); }
    forall f: nat | f in st.maps ensures st.maps[f] == Operations.Settle(st, st.slots).maps[f] {
      forall pr | pr in st.maps[f] ensures Occupied(st.slots, MapCap(f, pr.0)) { assert MapsInto(st.maps, f, pr.0); }
    }
  }

  /** Clearing the next victim touches, besides it, at most its parent's child list. */
  lemma RevokeTurn(st: State, m: Slots, sid: SlotId, victims: seq<SlotId>, j: nat)
    requires Inv(st) && sid in st.slots && Victims(st.slots, sid, victims)
    requires Revoking(st, m, sid, victims, j) && j < |victims|
    ensures var d := victims[j];
            var m' := Cleared(m[d := m[d].(children := [])], d);
            && m[d].obj.Some? && m[d].obj.value in st.objs
            && Revoking(st, m', sid, victims, j + 1)
            && Operations.Settle(st, m').maps == SweptBelow(m', Operations.Settle(st, m).maps, st.cfg.nspaces)
            && Operations.Settle(st, m').objs ==
               (var o := m[d].obj.value; var objs := Operations.Settle(st, m).objs;
                if !Named(m', o) then objs[o := objs[o].(alive := false)] else objs)
  {
    var d := victims[j];
    var m' := Cleared(m[d := m[d].(children := [])], d);
    RevokeTurnSlots(st, m, sid, victims, j);
    hide Inv, Victims;
    TurnObjects(st, m, m', d);
    TurnMaps(st, m, m', d);
  }

  lemma TurnObjects(st: State, m: Slots, m': Slots, d: SlotId)
    requires Occupied(m, d) && m[d].obj.value in st.objs && m'.Keys == m.Keys && m'[d].obj.None?
    requires forall t :: t in m && t != d ==> m'[t].obj == m[t].obj
    ensures Operations.Settle(st, m').objs ==
            (var o := m[d].obj.value; var objs := Operations.Settle(st, m).objs;
             if !Named(m', o) then objs[o := objs[o].(alive := false)] else objs)
  {
    var o := m[d].obj.value;
    assert Named(m, o);
    forall o': nat | o' != o ensures Named(m', o') <==> Named(m, o') {
      if Named(m, o') { var t :| t in m && m[t].obj == Some(o'); assert m'[t].obj == Some(o'); }
    }
  }

  lemma TurnMaps(st: State, m: Slots, m': Slots, d: SlotId)
    requires m'.Keys == m.Keys && d in m && m'[d].obj.None?
    requires forall t :: t in m && t != d ==> m'[t].obj == m[t].obj
    requires forall f: nat, pr: (nat, int) :: f in st.maps && pr in st.maps[f] ==> pr.0 < st.cfg.nspaces
    ensures Operations.Settle(st, m').maps == SweptBelow(m', Operations.Settle(st, m).maps, st.cfg.nspaces)
  {
    forall f: nat | f in st.maps
      ensures Operations.Settle(st, m').maps[f] == SweptBelow(m', Operations.Settle(st, m).maps, st.cfg.nspaces)[f]
    {
      forall pr: (nat, int) | pr in st.maps[f]
        ensures Occupied(m', MapCap(f, pr.0)) ==> Occupied(m, MapCap(f, pr.0))
      {}
    }
  }

  /** Clearing a slot touches, besides it, at most its parent's child list. */
  lemma ClearedAt(m: Slots, d: SlotId)
    requires d in m && m[d].parent != Some(d)
    ensures var r := Cleared(m, d);
            && r.Keys == m.Keys
            && r[d] == EMPTY.(children := m[d].children)
            && (forall t :: t in m && t != d ==> r[t] == m[t].(children := r[t].children))
            && (forall t :: t in m && t != d && (m[t].children == [] || m[d].parent != Some(t)) ==> r[t] == m[t])
  {}

  lemma RevokeTurnSlots(st: State, m: Slots, sid: SlotId, victims: seq<SlotId>, j: nat)
    requires Inv(st) && sid in st.slots && Victims(st.slots, sid, victims)
    requires Revoking(st, m, sid, victims, j) && j < |victims|
    ensures var d := victims[j];
            var m' := Cleared(m[d := m[d].(children := [])], d);
            && Occupied(m, d) && m[d].obj.value in st.objs
            && Revoking(st, m', sid, victims, j + 1)
            && m'[d].obj.None? && (forall t :: t in m && t != d ==> m'[t].obj == m[t].obj)
            && (forall f: nat, pr: (nat, int) :: f in st.maps && pr in st.maps[f] ==> pr.0 < st.cfg.nspaces)
  {
    var d := victims[j];
    var q := VictimParent(st, sid, victims, d);
    SplitList(victims, j);
    hide Inv, Victims, NoDup;
    RevokingStep(st, m, sid, victims, j, q);
    ClearedAt(m[d := m[d].(children := [])], d);
  }

  lemma SplitList(s: seq<SlotId>, j: nat)
    requires NoDup(s) && j < |s|
    ensures s[..j + 1] == s[..j] + [s[j]] && s[j..] == [s[j]] + s[j + 1..]
    ensures s[j] !in s[..j] && s[j] !in s[j + 1..]
    ensures forall t :: t in s ==> t in s[..j] || t == s[j] || t in s[j + 1..]
  {
    assert s == s[..j] + s[j..];
  }

  lemma RevokingStep(st: State, m: Slots, sid: SlotId, victims: seq<SlotId>, j: nat, q: SlotId)
    requires Revoking(st, m, sid, victims, j) && j < |victims|
    requires victims[..j + 1] == victims[..j] + [victims[j]] && victims[j..] == [victims[j]] + victims[j + 1..]
    requires victims[j] !in victims[..j] && victims[j] !in victims[j + 1..] && victims[j] != sid
    requires st.slots[victims[j]].parent == Some(q) && q != victims[j] && (q == sid || q in victims)
    ensures var d := victims[j];
            Revoking(st, Cleared(m[d := m[d].(children := [])], d), sid, victims, j + 1)
  {
    var d := victims[j];
    assert d in victims[j..];
    ClearedAt(m[d := m[d].(children := [])], d);
    hide Cleared;
  }

  /** A victim is occupied, and its parent is the root or another victim. */
  lemma VictimParent(st: State, sid: SlotId, victims: seq<SlotId>, d: SlotId) returns (q: SlotId)
    requires Inv(st) && sid in st.slots && Victims(st.slots, sid, victims) && d in victims
    ensures d in st.slots && st.slots[d].parent == Some(q) && q != d && (q == sid || q in victims) && d != sid
    ensures Occupied(st.slots, d) && st.slots[d].obj.value in st.objs
    ensures forall f: nat, pr: (nat, int) :: f in st.maps && pr in st.maps[f] ==> pr.0 < st.cfg.nspaces
  {
    var p := ParentsOf(st.slots);
    AncUnfold(p, sid, d);
    q := p[d];
    assert ChildOf(st.slots, d, q);
    NoSelfParent(st.slots, d);
  }

  lemma RevokeDone(st: State, m: Slots, sid: SlotId, victims: seq<SlotId>)
    requires Inv(st) && sid in st.slots && Victims(st.slots, sid, victims)
    requires Revoking(st, m, sid, victims, |victims|)
    ensures m[sid := m[sid].(children := [])] == Theory.Revoke(st.slots, sid)
    ensures Operations.Settle(st, Theory.Revoke(st.slots, sid)).objs == Operations.Settle(st, m).objs
    ensures Operations.Settle(st, Theory.Revoke(st.slots, sid)).maps == Operations.Settle(st, m).maps
  {
    var r := Theory.Revoke(st.slots, sid);
    assert victims[..|victims|] == victims;
    assert m[sid := m[sid].(children := [])] == r;
    assert forall t :: t in m ==> m[t].obj == r[t].obj;
    hide Inv, Theory.Revoke, Revoking, Victims;
    SameObjectsSettle(st, m, r);
  }

  /** Liveness and the sweep depend only on which object each slot holds. */
  lemma SameObjectsSettle(st: State, m: Slots, r: Slots)
    requires m.Keys == r.Keys && forall t :: t in m ==> m[t].obj == r[t].obj
    ensures Operations.Settle(st, r).objs == Operations.Settle(st, m).objs
    ensures Operations.Settle(st, r).maps == Operations.Settle(st, m).maps
  {
    forall o: nat ensures Named(m, o) <==> Named(r, o) {
      if Named(m, o) { var t :| t in m && m[t].obj == Some(o); assert r[t].obj == Some(o); }
      if Named(r, o) { var t :| t in r && r[t].obj == Some(o); assert m[t].obj == Some(o); }
    }
    forall f: nat | f in st.maps ensures Operations.Settle(st, r).maps[f] == Operations.Settle(st, m).maps[f] {
      forall pr: (nat, int) ensures Occupied(m, MapCap(f, pr.0)) <==> Occupied(r, MapCap(f, pr.0)) {}
    }
  }

  // ── relocation, statement by statement ─────────────────────────────────────

  function IndexOf(s: seq<SlotId>, x: SlotId): (i: nat)
    requires x in s
    ensures i < |s| && s[i] == x && x !in s[..i]
  {
    if s[0] == x then 0
    else
      var i := 1 + IndexOf(s[1..], x);
      assert s[..i] == [s[0]] + s[1..][..i - 1];
      i
  }

  /** Around an occupied slot and an empty one: neither is linked to itself or to the other. */
  ghost predicate Apart(m: Slots, frm: SlotId, to: SlotId) {
    && frm in m && to in m && frm != to && m[to] == EMPTY
    && (forall c :: c in m[frm].children ==> c in m && c != frm && c != to && m[c].parent == Some(frm))
    && (forall t :: t in m && m[t].parent == Some(frm) ==> t in m[frm].children)
    && (forall t :: t in m ==> m[t].parent != Some(to))
    && (forall t :: t in m ==> to !in m[t].children)
    && (m[frm].parent.Some? ==>
          var p := m[frm].parent.value;
          p in m && p != frm && p != to && frm in m[p].children && NoDup(m[p].children) && p !in m[frm].children)
    && (forall t :: t in m && m[frm].parent != Some(t) ==> frm !in m[t].children)
  }

  lemma RelocateLinks(m: Slots, frm: SlotId, to: SlotId)
    requires Tree(m) && Occupied(m, frm) && to in m && m[to] == EMPTY
    ensures Apart(m, frm, to)
  {
    NoSelfParent(m, frm);
    forall c ensures c in m[frm].children <==> ChildOf(m, c, frm) { assert Lists(m, frm, c) <==> ChildOf(m, c, frm); }
    forall t ensures !ChildOf(m, t, to) { assert Lists(m, to, t) <==> ChildOf(m, t, to); }
    forall t | t in m ensures m[t].parent != Some(to) && to !in m[t].children {
      assert !ChildOf(m, t, to) && !ChildOf(m, to, t) && !Lists(m, t, to);
    }
    forall t | t in m && m[frm].parent != Some(t) ensures frm !in m[t].children {
      assert !ChildOf(m, frm, t) && !Lists(m, t, frm);
    }
    if m[frm].parent.Some? {
      assert ChildOf(m, frm, m[frm].parent.value) && Lists(m, m[frm].parent.value, frm);
    }
  }

  lemma RenameApart(pi: Perm, s: seq<SlotId>)
    requires forall x :: x in s ==> !pi.Moves(x)
    ensures Theory.RenameAll(pi, s) == s
  {
    forall i | 0 <= i < |s| ensures pi.To(s[i]) == s[i] { assert s[i] in s; }
  }

  /** A conjugation by a transposition with an empty slot, slot by slot. */
  function RelocatedSlot(m: Slots, frm: SlotId, to: SlotId, t: SlotId): Slot
    requires Apart(m, frm, to) && t in m
  {
    if t == to then m[frm]
    else if t == frm then EMPTY
    else if m[frm].parent == Some(t) then m[t].(children := m[t].children[IndexOf(m[t].children, frm) := to])
    else if t in m[frm].children then m[t].(parent := Some(to))
    else m[t]
  }

  lemma ConjugateApart(m: Slots, frm: SlotId, to: SlotId, t: SlotId)
    requires Apart(m, frm, to) && t in m
    ensures t in Theory.Conjugate(m, Swap(frm, to))
    ensures Theory.Conjugate(m, Swap(frm, to))[t] == RelocatedSlot(m, frm, to, t)
  {
    var pi := Swap(frm, to);
    if t == to {
      RenameApart(pi, m[frm].children);
    } else if t != frm {
      if m[frm].parent == Some(t) {
        RenameOne(pi, m[t].children);
      } else {
        RenameApart(pi, m[t].children);
      }
    }
  }

  lemma RenameOne(pi: Perm, ch: seq<SlotId>)
    requires pi.Swap? && pi.a in ch && pi.b !in ch && NoDup(ch)
    ensures Theory.RenameAll(pi, ch) == ch[IndexOf(ch, pi.a) := pi.b]
  {
    var i := IndexOf(ch, pi.a);
    forall k | 0 <= k < |ch| && k != i ensures pi.To(ch[k]) == ch[k] { assert ch[k] in ch; }
  }

  lemma ConjugateIsRelocated(m: Slots, frm: SlotId, to: SlotId)
    requires Apart(m, frm, to)
    ensures Theory.Conjugate(m, Swap(frm, to)) == map t | t in m :: RelocatedSlot(m, frm, to, t)
  {
    forall t | t in m ensures Theory.Conjugate(m, Swap(frm, to))[t] == RelocatedSlot(m, frm, to, t) {
      ConjugateApart(m, frm, to, t);
    }
  }

  lemma RelocateBySteps(m: Slots, frm: SlotId, to: SlotId)
    requires Apart(m, frm, to)
    ensures var f := m[frm];
            var m1 := m[to := m[to].(obj := f.obj, rights := f.rights, badge := f.badge, parent := f.parent)];
            var m2 := if f.parent.Some? then
                        var ch := m1[f.parent.value].children;
                        m1[f.parent.value := m1[f.parent.value].(children := ch[IndexOf(ch, frm) := to])]
                      else m1;
            var m3 := m2[to := m2[to].(children := f.children)];
            Adopted(m3, f.children, Some(to))[frm := EMPTY] == Theory.Conjugate(m, Swap(frm, to))
  {
    hide Theory.Conjugate;
    ConjugateIsRelocated(m, frm, to);
  }

  /** The slots a move leaves, one field after another as it writes them. */
  function MoveSteps(m: Slots, frm: SlotId, to: SlotId): Slots
    requires Apart(m, frm, to)
  {
    var f := m[frm];
    var m1 := m[to := m[to].(obj := f.obj, rights := f.rights, badge := f.badge, parent := f.parent)];
    var m2 := if f.parent.Some? then
                var p := f.parent.value;
                var m1' := m1[p := m1[p].(children := RemoveFirst(m1[p].children, frm))];
                m1'[p := m1'[p].(children := m1'[p].children + [to])]
              else m1;
    var m3 := m2[to := m2[to].(children := f.children)];
    Adopted(m3, f.children, Some(to))[frm := EMPTY]
  }

  lemma MoveStepsAt(m: Slots, frm: SlotId, to: SlotId, t: SlotId)
    requires Apart(m, frm, to) && t in m
    ensures t in MoveSteps(m, frm, to)
    ensures MoveSteps(m, frm, to)[t] ==
            if m[frm].parent == Some(t) then m[t].(children := Theory.Without(m[t].children, frm) + [to]) else RelocatedSlot(m, frm, to, t)
  {
    hide Theory.Without, RemoveFirst;
  }

  lemma MoveAt(m: Slots, frm: SlotId, to: SlotId, t: SlotId)
    requires Apart(m, frm, to) && t in m
    ensures t in Theory.Move(m, frm, to)
    ensures Theory.Move(m, frm, to)[t] ==
            if m[frm].parent == Some(t) then m[t].(children := Theory.Without(m[t].children, frm) + [to]) else RelocatedSlot(m, frm, to, t)
  {
    hide Theory.Conjugate, Theory.Without;
    ConjugateIsRelocated(m, frm, to);
    if m[frm].parent == Some(t) {
      var ch := m[t].children;
      ReplaceThenDrop(ch, IndexOf(ch, frm), frm, to);
    }
  }

  lemma MoveBySteps(m: Slots, frm: SlotId, to: SlotId)
    requires Apart(m, frm, to)
    ensures MoveSteps(m, frm, to) == Theory.Move(m, frm, to)
  {
    hide Theory.Conjugate, RelocatedSlot, MoveSteps, Theory.Move;
    MoveKeys(m, frm, to);
    forall t | t in m ensures MoveSteps(m, frm, to)[t] == Theory.Move(m, frm, to)[t] {
      MoveStepsAt(m, frm, to, t);
      MoveAt(m, frm, to, t);
    }
  }

  lemma MoveKeys(m: Slots, frm: SlotId, to: SlotId)
    requires Apart(m, frm, to)
    ensures MoveSteps(m, frm, to).Keys == m.Keys && Theory.Move(m, frm, to).Keys == m.Keys
  {
    hide Theory.Conjugate, Theory.Without, RemoveFirst;
    ConjugateIsRelocated(m, frm, to);
  }

  /** Replacing an element and then dropping the replacement is dropping the element. */
  lemma {:induction false} ReplaceThenDrop(s: seq<SlotId>, i: nat, x: SlotId, y: SlotId)
    requires NoDup(s) && i < |s| && s[i] == x && y !in s
    ensures Theory.Without(s[i := y], y) == Theory.Without(s, x)
  {
    var n := |s| - 1;
    assert s == s[..n] + [s[n]];
    NoDupSnoc(s[..n], s[n]);
    assert s[i := y][..n] == if i < n then s[..n][i := y] else s[..n];
    if i < n { ReplaceThenDrop(s[..n], i, x, y); }
  }

  /** `h` is `f` followed by `g`. */
  ghost predicate Composes(f: Perm, g: Perm, h: Perm) {
    forall x :: h.To(x) == g.To(f.To(x))
  }

  lemma RenameTwice(f: Perm, g: Perm, h: Perm, s: Slot)
    requires Composes(f, g, h)
    ensures Theory.RenameLinks(g, Theory.RenameLinks(f, s)) == Theory.RenameLinks(h, s)
  {
    assert Theory.RenameAll(g, Theory.RenameAll(f, s.children)) == Theory.RenameAll(h, s.children);
  }

  lemma ConjugateTwiceAt(m: Slots, f: Perm, g: Perm, h: Perm, t: SlotId)
    requires Relocates(m, f) && Relocates(Theory.Conjugate(m, f), g) && Relocates(m, h) && Composes(f, g, h)
    requires t in m && t in Theory.Conjugate(m, h)
    ensures t in Theory.Conjugate(Theory.Conjugate(m, f), g)
    ensures Theory.Conjugate(Theory.Conjugate(m, f), g)[t] == Theory.Conjugate(m, h)[t]
  {
    var m1, x := Theory.Conjugate(m, f), h.From(t);
    PermInverse(h, t);
    assert h.To(x) == g.To(f.To(x));
    hide Composes;
    ConjugateAt(m, h, x);
    ConjugateAt(m, f, x);
    ConjugateAt(m1, g, f.To(x));
    RenameTwice(f, g, h, m[x]);
  }

  /** Two renamings in sequence are one. */
  lemma ConjugateTwice(m: Slots, f: Perm, g: Perm, h: Perm)
    requires Relocates(m, f) && Relocates(m, g) && Relocates(m, h) && Composes(f, g, h)
    ensures Theory.Conjugate(Theory.Conjugate(m, f), g) == Theory.Conjugate(m, h)
  {
    hide Theory.Conjugate, Composes;
    var m1 := Theory.Conjugate(m, f);
    ConjugateKeys(m, f);
    ConjugateKeys(m1, g);
    ConjugateKeys(m, h);
    forall t | t in m ensures Theory.Conjugate(m1, g)[t] == Theory.Conjugate(m, h)[t] {
      ConjugateTwiceAt(m, f, g, h, t);
    }
  }

  /** A slot can be relocated into an empty one. */
  ghost predicate CanRelocate(m: Slots, frm: SlotId, to: SlotId) {
    Tree(m) && Occupied(m, frm) && to in m && m[to] == EMPTY && !frm.MapCap? && !to.MapCap?
  }

  lemma Relocated(m: Slots, frm: SlotId, to: SlotId)
    requires CanRelocate(m, frm, to)
    ensures var r := Theory.Conjugate(m, Swap(frm, to));
            && Tree(r) && r.Keys == m.Keys && r[frm] == EMPTY && Occupied(r, to)
            && forall t :: t in m && t != frm && t != to ==> r[t].obj == m[t].obj
  {
    hide Tree, Theory.Conjugate;
    ConjugateTree(m, Swap(frm, to));
    ConjugateKeys(m, Swap(frm, to));
    ConjugateAt(m, Swap(frm, to), frm);
    ConjugateAt(m, Swap(frm, to), to);
    forall t | t in m && t != frm && t != to ensures Theory.Conjugate(m, Swap(frm, to))[t].obj == m[t].obj {
      ConjugateAt(m, Swap(frm, to), t);
    }
  }

  lemma TempTree(m: Slots)
    requires Tree(m) && Temp !in m
    ensures Tree(m[Temp := EMPTY])
  {
    var r := m[Temp := EMPTY];
    assert ParentsOf(r) == ParentsOf(m);
    forall s, p ensures ChildOf(r, s, p) <==> Lists(r, p, s) { assert ChildOf(m, s, p) <==> Lists(m, p, s); }
  }

  /** The temporary comes and goes without a trace. */
  lemma TempForgotten(m: Slots, pi: Perm)
    requires Temp !in m && !pi.Moves(Temp) && Relocates(m, pi)
    ensures Theory.Conjugate(m[Temp := EMPTY], pi) - {Temp} == Theory.Conjugate(m, pi)
  {
    var r, r' := Theory.Conjugate(m, pi), Theory.Conjugate(m[Temp := EMPTY], pi);
    forall t | t != Temp ensures (t in r <==> t in r') && (t in r ==> r[t] == r'[t]) {
      PermInverse(pi, t);
    }
    assert Temp !in r by { PermInverse(pi, Temp); }
  }

  lemma NoTemp(st: State)
    requires Inv(st)
    ensures Temp !in st.slots
  {}

  lemma PermProducts(a: SlotId, b: SlotId, c: SlotId)
    requires a != b && b != c && a != c
    ensures Composes(Swap(a, b), Swap(c, a), Cycle(a, b, c))
    ensures Composes(Cycle(a, b, c), Swap(b, c), Swap(a, c))
  {}

  /** Three relocations through a temporary slot are one transposition. */
  lemma SwapThroughTemp(st: State, pivot: nat, src: nat)
    requires Inv(st) && src != pivot && Occupied(st.slots, Real(src)) && Occupied(st.slots, Real(pivot))
    ensures var s, p := Real(src), Real(pivot);
            var m1 := st.slots[Temp := EMPTY];
            var m2 := Theory.Conjugate(m1, Swap(s, Temp));
            var m3 := Theory.Conjugate(m2, Swap(p, s));
            && CanRelocate(m1, s, Temp) && CanRelocate(m2, p, s) && CanRelocate(m3, Temp, p)
            && Theory.Conjugate(m3, Swap(Temp, p)) - {Temp} == Theory.Conjugate(st.slots, Swap(s, p))
  {
    hide Inv, Tree, Composes, Theory.Conjugate;
    var s, p := Real(src), Real(pivot);
    var m1 := st.slots[Temp := EMPTY];
    InvParts(st, s);
    NoTemp(st);
    TempTree(st.slots);
    var m2 := Theory.Conjugate(m1, Swap(s, Temp));
    Relocated(m1, s, Temp);
    Relocated(m2, p, s);
    PermProducts(s, Temp, p);
    ConjugateTwice(m1, Swap(s, Temp), Swap(p, s), Cycle(s, Temp, p));
    ConjugateTwice(m1, Cycle(s, Temp, p), Swap(Temp, p), Swap(s, p));
    TempForgotten(st.slots, Swap(s, p));
  }

  /** Two relocations are one three-cycle, also when the pivot is the source's parent or child. */
  lemma CycleInTwo(st: State, dest: nat, pivot: nat, src: nat)
    requires Inv(st) && src != pivot && dest != pivot && dest != src
    requires Occupied(st.slots, Real(src)) && Occupied(st.slots, Real(pivot))
    requires Real(dest) in st.slots && st.slots[Real(dest)] == EMPTY
    ensures var d, p, s := Real(dest), Real(pivot), Real(src);
            var m1 := Theory.Conjugate(st.slots, Swap(p, d));
            && CanRelocate(st.slots, p, d) && CanRelocate(m1, s, p)
            && Theory.Conjugate(m1, Swap(s, p)) == Theory.Conjugate(st.slots, Cycle(p, d, s))
  {
    hide Inv, Tree, Composes, Theory.Conjugate;
    var d, p, s := Real(dest), Real(pivot), Real(src);
    PermProducts(p, d, s);
    InvParts(st, d);
    Relocated(st.slots, p, d);
    ConjugateTwice(st.slots, Swap(p, d), Swap(s, p), Cycle(p, d, s));
  }

  // ── address spaces, statement by statement ─────────────────────────────────

  lemma {:induction false} FrameIndexFirst(frames: seq<nat>, o: nat, i: nat)
    requires i < |frames| && frames[i] == o && o !in frames[..i]
    ensures Operations.FrameIndex(frames, o) == Some(i)
    decreases |frames|
  {
    var n := |frames| - 1;
    if i < n {
      assert frames[..n][..i] == frames[..i];
      FrameIndexFirst(frames[..n], o, i);
    }
  }

  lemma RealSlotsExist(st: State, n: nat)
    requires Inv(st)
    ensures Real(n) in st.slots <==> n < st.cfg.ncnodes * st.cfg.spc
  {}

  lemma MapCapBlank(st: State, mc: SlotId)
    requires Inv(st)
    ensures mc in st.slots && st.slots[mc].obj.None? ==> st.slots[mc] == EMPTY
  {}

  /** A mapping capability has no children, so clearing it is deleting it. */
  lemma ClearMapCap(st: State, mc: SlotId)
    requires Inv(st) && mc.MapCap? && Occupied(st.slots, mc)
    ensures Cleared(st.slots, mc) == Theory.Delete(st.slots, mc)
    ensures st.slots[mc].obj.value in st.objs
  {
    hide Edges, Live, FrameTable, MappingAuthority, Domain;
    var m := st.slots;
    NoSelfParent(m, mc);
    if m[mc].parent.Some? {
      var p := m[mc].parent.value;
      assert ChildOf(m, mc, p) && Lists(m, p, mc);
      assert RemoveFirst(m[p].children, mc) == Theory.Without(m[p].children, mc) + m[mc].children;
    }
  }

  lemma UnmapDone(st: State, f: nat, k: nat, va: int, objs: Objects, maps: Mappings)
    requires Inv(st) && f in st.maps && (k, va) in st.maps[f] && Occupied(st.slots, MapCap(f, k))
    requires var m, o := Theory.Delete(st.slots, MapCap(f, k)), st.slots[MapCap(f, k)].obj.value;
             && objs == (if o in st.objs && !Named(m, o) then st.objs[o := st.objs[o].(alive := false)] else st.objs)
             && maps == SweptBelow(m, st.maps[f := st.maps[f] - {(k, va)}], st.cfg.nspaces)
    ensures var m, st1 := Theory.Delete(st.slots, MapCap(f, k)), st.(maps := st.maps[f := st.maps[f] - {(k, va)}]);
            objs == Operations.Settle(st1, m).objs && maps == Operations.Settle(st1, m).maps
  {
    var m, st1 := Theory.Delete(st.slots, MapCap(f, k)), st.(maps := st.maps[f := st.maps[f] - {(k, va)}]);
    ObjectsSettle(st, m, MapCap(f, k));
    MapsShrink(st, f, k, va);
    SweepSettle(st1, m);
  }
}
