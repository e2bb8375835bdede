/** The state of the authority model: slots, objects, address-space mappings, and the inductive
    invariant that every operation keeps.
 */
module Authority {
  import opened Wrappers
  import opened Forest

  // ── rights: a mask, as the set of the bit positions it holds ───────────────
  type Rights = set<nat>
  const READ: nat := 0
  const WRITE: nat := 1
  const DUPLICATE: nat := 2
  const TRANSFER: nat := 3
  const WAIT: nat := 4
  const ROUTE: nat := 5
  const MANAGE: nat := 6
  const R_ALL: Rights := {READ, WRITE, DUPLICATE, TRANSFER, WAIT, ROUTE, MANAGE}

  // ── result codes ───────────────────────────────────────────────────────────
  const OK := 0
  const ERR_INVALID_ARG := -1
  const ERR_NOT_FOUND := -3
  const ERR_ACCESS_DENIED := -5
  const ERR_ALREADY_EXISTS := -7
  const ERR_BUSY := -8
  const ERR_WRONG_TYPE := -9
  const ERR_WOULD_BLOCK := -13

  /** What an operation answers: a code, the bits of a poll, or nothing at all. */
  datatype Answer = Code(code: int) | Bits(word: bv64) | Silent

  datatype ObjType = Endpoint | Notification | CNode | Untyped | Reply | SchedContext | Frame

  /** `bits` is the pending word of a notification; `alive` is the destructor's verdict. */
  datatype Obj = Obj(typ: ObjType, bits: bv64, alive: bool)

  /** One capability. Empty exactly when `obj` is `None`. */
  datatype Slot = Slot(obj: Option<nat>, rights: Rights, badge: int,
                       parent: Option<SlotId>, children: seq<SlotId>)

  const EMPTY := Slot(None, {}, 0, None, [])

  type Slots = map<SlotId, Slot>
  type Objects = map<nat, Obj>
  /** Frame index to the (space, address) pairs it is mapped at. */
  type Mappings = map<nat, set<(nat, int)>>

  datatype Config = Config(ncnodes: nat, spc: nat, nframes: nat, nspaces: nat)

  datatype State = State(cfg: Config, slots: Slots, objs: Objects, nextOid: nat,
                         frames: seq<nat>, maps: Mappings, lastRevoked: nat)

  // ── reading a state ────────────────────────────────────────────────────────

  function ParentsOf(m: Slots): Parents {
    map s | s in m && m[s].parent.Some? :: m[s].parent.value
  }

  /** `a` is a strict ancestor of `d` in the derivation forest. */
  ghost predicate Ancestor(m: Slots, a: SlotId, d: SlotId) {
    Anc(ParentsOf(m), a, d)
  }

  predicate Occupied(m: Slots, s: SlotId) { s in m && m[s].obj.Some? }

  predicate Named(m: Slots, o: nat) {
    exists s :: s in m && m[s].obj == Some(o)
  }

  predicate NoDup<T(==)>(s: seq<T>) {
    forall i, j :: 0 <= i < j < |s| ==> s[i] != s[j]
  }

  lemma NoDupSnoc<T>(s: seq<T>, x: T)
    ensures NoDup(s + [x]) <==> NoDup(s) && x !in s
  {
    var t := s + [x];
    assert t[|s|] == x;
    assert forall i :: 0 <= i < |s| ==> t[i] == s[i];
  }

  function Elems<T(==)>(s: seq<T>): set<T> { set x | x in s }

  /** A list without repetition is as long as the set of its elements. */
  lemma {:induction false} NoDupSize<T>(s: seq<T>)
    requires NoDup(s)
    ensures |Elems(s)| == |s|
  {
    if s != [] {
      var t := s[..|s| - 1];
      assert s == t + [s[|s| - 1]];
      NoDupSnoc(t, s[|s| - 1]);
      NoDupSize(t);
      assert Elems(s) == Elems(t) + {s[|s| - 1]};
    }
  }

  lemma SubsetSize<T>(a: set<T>, b: set<T>)
    requires a <= b
    ensures |a| <= |b|
  {
    assert b == a + (b - a);
  }

  // ── the invariant ──────────────────────────────────────────────────────────

  /** The slots that exist: the CSpace, and mapping capabilities of existing frames and spaces. */
  ghost predicate Domain(cfg: Config, m: Slots) {
    && (forall n: nat :: Real(n) in m <==> n < cfg.ncnodes * cfg.spc)
    && (forall f: nat, k: nat :: MapCap(f, k) in m ==> f < cfg.nframes && k < cfg.nspaces)
    && Temp !in m
  }

  predicate ChildOf(m: Slots, s: SlotId, p: SlotId) { s in m && m[s].parent == Some(p) }

  predicate Lists(m: Slots, p: SlotId, s: SlotId) { p in m && s in m[p].children }

  /** The two directions of every link agree. */
  ghost predicate Symmetric(m: Slots) {
    forall s, p :: ChildOf(m, s, p) <==> Lists(m, p, s)
  }

  /** Child lists repeat nothing, an empty slot is blank, and a mapping capability has no children. */
  ghost predicate Tidy(m: Slots) {
    && (forall s :: s in m ==> NoDup(m[s].children))
    && (forall s :: s in m && m[s].obj.None? ==> m[s] == EMPTY)
    && (forall s :: s in m && s.MapCap? ==> m[s].children == [])
  }

  /** The derivation graph is a doubly linked forest. */
  ghost predicate Tree(m: Slots) {
    Symmetric(m) && Tidy(m) && Acyclic(ParentsOf(m))
  }

  /** One edge. A derivation keeps the object, only reduces rights (A7) and never re-badges (A8);
      the only other edge is a creation from an Untyped (O2), and it points at an older object. */
  ghost predicate EdgeOK(c: Slot, p: Slot, objs: Objects) {
    && c.obj.Some? && p.obj.Some? && p.obj.value in objs
    && (c.obj == p.obj ==> c.rights <= p.rights && (p.badge != 0 ==> c.badge == p.badge))
    && (c.obj != p.obj ==> objs[p.obj.value].typ == Untyped && p.obj.value < c.obj.value)
  }

  ghost predicate Edges(m: Slots, objs: Objects) {
    forall s, p :: ChildOf(m, s, p) && p in m ==> EdgeOK(m[s], m[p], objs)
  }

  /** Object ids are handed out in order, every capability names one of them, and only a
      notification ever carries bits. */
  ghost predicate Numbered(m: Slots, objs: Objects, nextOid: nat) {
    && 1 <= nextOid
    && (forall o :: o in objs <==> 1 <= o < nextOid)
    && (forall s :: s in m && m[s].obj.Some? ==> m[s].obj.value in objs)
    && (forall o :: o in objs && objs[o].bits != 0 ==> objs[o].typ == Notification)
  }

  /** D-7: an object is alive exactly while some slot names it. */
  ghost predicate Live(m: Slots, objs: Objects) {
    forall o :: o in objs ==> (objs[o].alive <==> Named(m, o))
  }

  /** The frame table. */
  ghost predicate FrameTable(cfg: Config, objs: Objects, frames: seq<nat>, maps: Mappings) {
    && 0 < cfg.nspaces && |frames| <= cfg.nframes
    && NoDup(frames)
    && (forall f :: 0 <= f < |frames| ==> frames[f] in objs && objs[frames[f]].typ == Frame)
    && (forall f :: f in maps <==> 0 <= f < |frames|)
    && (forall f, pr :: f in maps && pr in maps[f] ==> pr.0 < cfg.nspaces)
    && (forall f, g, pr :: f in maps && g in maps && pr in maps[f] && pr in maps[g] ==> f == g)
  }

  predicate MapsInto(maps: Mappings, f: nat, k: nat) {
    f in maps && exists pr :: pr in maps[f] && pr.0 == k
  }

  /** D-13, in both directions: space `k` holds its capability on frame `f` exactly when it maps `f`. */
  ghost predicate MappingAuthority(m: Slots, frames: seq<nat>, maps: Mappings) {
    && (forall f: nat, k: nat :: Occupied(m, MapCap(f, k)) ==> f < |frames| && m[MapCap(f, k)].obj == Some(frames[f]))
    && (forall f: nat, k: nat :: Occupied(m, MapCap(f, k)) <==> MapsInto(maps, f, k))
  }

  ghost predicate Inv(st: State) {
    && Domain(st.cfg, st.slots)
    && Tree(st.slots)
    && Edges(st.slots, st.objs)
    && Numbered(st.slots, st.objs, st.nextOid)
    && Live(st.slots, st.objs)
    && FrameTable(st.cfg, st.objs, st.frames, st.maps)
    && MappingAuthority(st.slots, st.frames, st.maps)
  }
}
