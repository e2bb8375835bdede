/** The abstract specification of derivation, deletion and revocation: pure definitions on a
    slot map, each slot's new value given at once and by itself.
 */
module Theory {
  import opened Wrappers
  import opened Forest
  import opened Authority

  predicate RightsCheck(have: Rights, need: Rights) {
    need != {} && have * need == need
  }

  /** The answer to a derivation request. The order of the tests is part of the specification. */
  function CanDerive(m: Slots, objs: Objects, src: SlotId, dst: SlotId, req: Rights, bg: int): (r: int)
    requires forall s :: Occupied(m, s) ==> m[s].obj.value in objs
  {
    if src == dst then ERR_INVALID_ARG
    else if !Occupied(m, src) then ERR_NOT_FOUND
    else if !RightsCheck(m[src].rights, {DUPLICATE}) then ERR_ACCESS_DENIED
    else if m[src].rights * req == {} then ERR_INVALID_ARG
    else if bg != 0 && m[src].badge != 0 && m[src].badge != bg then ERR_ACCESS_DENIED
    else if bg != 0 && m[src].badge == 0
         && objs[m[src].obj.value].typ != Endpoint && objs[m[src].obj.value].typ != Notification
    then ERR_INVALID_ARG
    else if Occupied(m, dst) then ERR_ALREADY_EXISTS
    else OK
  }

  /** A leaf `x` holding `o` is hung under `p`, last among its children. */
  function Attach(m: Slots, x: SlotId, o: nat, rights: Rights, badge: int, p: SlotId): Slots
    requires p in m && x != p
  {
    m[x := Slot(Some(o), rights, badge, Some(p), [])]
     [p := m[p].(children := m[p].children + [x])]
  }

  function Derive(m: Slots, src: SlotId, dst: SlotId, req: Rights, bg: int): Slots
    requires Occupied(m, src) && src != dst
  {
    Attach(m, dst, m[src].obj.value, m[src].rights * req, if bg == 0 then m[src].badge else bg, src)
  }

  /** A list without one name, the others in order. */
  function Without(s: seq<SlotId>, x: SlotId): (r: seq<SlotId>)
    ensures forall y :: y in r <==> y in s && y != x
    ensures NoDup(s) ==> NoDup(r)
    ensures x !in s ==> r == s
  {
    if s == [] then []
    else
      var i := |s| - 1;
      assert s == s[..i] + [s[i]];
      NoDupSnoc(s[..i], s[i]);
      NoDupSnoc(Without(s[..i], x), s[i]);
      if s[i] == x then Without(s[..i], x) else Without(s[..i], x) + [s[i]]
  }

  /** One slot is emptied; its children go to its parent, after the parent's own, or become roots. */
  function Delete(m: Slots, i: SlotId): (r: Slots)
    requires i in m
    ensures r.Keys == m.Keys
  {
    map t | t in m ::
      if t == i then EMPTY
      else if t in m[i].children then m[t].(parent := m[i].parent)
      else if m[i].parent == Some(t) then m[t].(children := Without(m[t].children, i) + m[i].children)
      else m[t]
  }

  /** Every strict descendant is emptied; the slot itself keeps its capability and loses its children. */
  ghost function Revoke(m: Slots, i: SlotId): (r: Slots)
    ensures r.Keys == m.Keys
  {
    map t | t in m ::
      if Ancestor(m, i, t) then EMPTY
      else if t == i then m[t].(children := [])
      else m[t]
  }

  // ── relocation ─────────────────────────────────────────────────────────────

  function RenameAll(pi: Perm, s: seq<SlotId>): (r: seq<SlotId>)
    ensures |r| == |s| && forall i :: 0 <= i < |s| ==> r[i] == pi.To(s[i])
  {
    seq(|s|, i requires 0 <= i < |s| => pi.To(s[i]))
  }

  function RenameLinks(pi: Perm, s: Slot): Slot {
    s.(parent := if s.parent.Some? then Some(pi.To(s.parent.value)) else None,
       children := RenameAll(pi, s.children))
  }

  /** The whole slot map under a permutation of names: the capability at `x` is now at `pi.To(x)`,
      and every link follows, child order included. */
  function Conjugate(m: Slots, pi: Perm): Slots {
    map t | t in m && pi.From(t) in m :: RenameLinks(pi, m[pi.From(t)])
  }

  /** `a` and the empty slot `b` trade places, except that the parent lists the newcomer last. */
  function Move(m: Slots, a: SlotId, b: SlotId): Slots
    requires a in m && b in m
  {
    var r := Conjugate(m, Swap(a, b));
    if m[a].parent.Some? && m[a].parent.value in r then
      var p := m[a].parent.value;
      r[p := r[p].(children := Without(r[p].children, b) + [b])]
    else r
  }
}
