/** The operations of the authority model as functions from a state to a state and an answer. */
module Operations {
  import opened Wrappers
  import opened Forest
  import opened Authority
  import Theory

  /** New slots are put in force: an object is alive if something still names it, and a space
      keeps mapping a frame only where it still holds its capability on it. */
  function Settle(st: State, m: Slots): State {
    st.(slots := m,
        objs := map o | o in st.objs :: st.objs[o].(alive := Named(m, o)),
        maps := Swept(m, st.maps))
  }

  function Swept(m: Slots, maps: Mappings): Mappings {
    map f: nat | f in maps :: set pr | pr in maps[f] && Occupied(m, MapCap(f, pr.0))
  }

  function BirthRights(t: ObjType): Rights {
    match t
    case Endpoint => {READ, WRITE, DUPLICATE, TRANSFER}
    case Notification => {READ, WRITE, WAIT, DUPLICATE, TRANSFER}
    case Reply => {READ, WRITE, TRANSFER, DUPLICATE}
    case SchedContext => {READ, WRITE, DUPLICATE, TRANSFER}
    case _ => R_ALL
  }

  ghost function Retype(st: State, ut: nat, t: ObjType, dst: nat): (State, Answer)
    requires Inv(st)
  {
    var m := st.slots;
    if Real(ut) !in m || Real(dst) !in m || ut == 0 then (st, Code(ERR_INVALID_ARG))
    else if m[Real(ut)].obj.None? then (st, Code(ERR_NOT_FOUND))
    else if st.objs[m[Real(ut)].obj.value].typ != Untyped then (st, Code(ERR_WRONG_TYPE))
    else if WRITE !in m[Real(ut)].rights then (st, Code(ERR_ACCESS_DENIED))
    else if dst == 0 then (st, Code(ERR_INVALID_ARG))
    else if m[Real(dst)].obj.Some? then (st, Code(ERR_ALREADY_EXISTS))
    else
      (st.(slots := Theory.Attach(m, Real(dst), st.nextOid, BirthRights(t), 0, Real(ut)),
           objs := st.objs[st.nextOid := Obj(t, 0, true)],
           nextOid := st.nextOid + 1),
       Code(OK))
  }

  ghost function Delete(st: State, n: nat): (State, Answer) {
    if Real(n) !in st.slots then (st, Code(ERR_INVALID_ARG))
    else if st.slots[Real(n)].obj.None? then (st, Code(OK))
    else (Settle(st, Theory.Delete(st.slots, Real(n))), Code(OK))
  }

  /** A fresh object in a parentless slot. */
  function Plant(st: State, n: nat, t: ObjType, rights: Rights): State {
    st.(slots := st.slots[Real(n) := Slot(Some(st.nextOid), rights, 0, None, [])],
        objs := st.objs[st.nextOid := Obj(t, 0, true)],
        nextOid := st.nextOid + 1)
  }

  /** Replaces an occupied slot, deleting what was there first. */
  ghost function Seed(st: State, n: nat, t: ObjType, rights: Rights): (State, Answer) {
    if Real(n) !in st.slots then (st, Code(ERR_INVALID_ARG))
    else (Plant(Delete(st, n).0, n, t, rights), Code(OK))
  }

  ghost function InstallUntyped(st: State, n: nat): (State, Answer) {
    Seed(st, n, Untyped, {READ, WRITE, DUPLICATE, TRANSFER})
  }

  ghost function Mint(st: State, src: nat, dst: nat, rights: Rights, badge: int): (State, Answer)
    requires Inv(st)
  {
    if Real(src) !in st.slots || Real(dst) !in st.slots then (st, Code(ERR_INVALID_ARG))
    else
      var r := Theory.CanDerive(st.slots, st.objs, Real(src), Real(dst), rights, badge);
      if r != OK then (st, Code(r))
      else (st.(slots := Theory.Derive(st.slots, Real(src), Real(dst), rights, badge)), Code(OK))
  }

  ghost function SyscallMint(st: State, src: nat, dst: nat, rights: Rights, badge: int): (State, Answer)
    requires Inv(st)
  {
    if src == 0 || dst == 0 || Real(src) !in st.slots then (st, Code(ERR_INVALID_ARG))
    else if st.slots[Real(src)].obj.None? then (st, Code(ERR_NOT_FOUND))
    else Mint(st, src, dst, rights, badge)
  }

  ghost function Move(st: State, src: nat, dst: nat): (State, Answer) {
    if Real(src) !in st.slots || Real(dst) !in st.slots || src == 0 || dst == 0 then (st, Code(ERR_INVALID_ARG))
    else if st.slots[Real(src)].obj.None? then (st, Code(ERR_NOT_FOUND))
    else if src == dst then (st, Code(ERR_INVALID_ARG))
    else if st.slots[Real(dst)].obj.Some? then (st, Code(ERR_ALREADY_EXISTS))
    else (st.(slots := Theory.Move(st.slots, Real(src), Real(dst))), Code(OK))
  }

  /** The renaming a successful rotate performs: a transposition when the destination is the
      source, and otherwise pivot to destination, source to pivot, the empty destination to source. */
  function RotatePerm(dest: nat, pivot: nat, src: nat): (pi: Perm)
    requires src != pivot && dest != pivot
    ensures pi.Valid()
  {
    if dest == src then Swap(Real(src), Real(pivot)) else Cycle(Real(pivot), Real(dest), Real(src))
  }

  ghost function Rotate(st: State, dest: nat, pivot: nat, src: nat): (State, Answer) {
    var m := st.slots;
    if Real(dest) !in m || Real(pivot) !in m || Real(src) !in m || src == pivot || dest == pivot
    then (st, Code(ERR_INVALID_ARG))
    else if m[Real(src)].obj.None? || m[Real(pivot)].obj.None? then (st, Code(ERR_NOT_FOUND))
    else if dest != src && m[Real(dest)].obj.Some? then (st, Code(ERR_ALREADY_EXISTS))
    else (st.(slots := Theory.Conjugate(m, RotatePerm(dest, pivot, src))), Code(OK))
  }

  ghost function Revoke(st: State, n: nat): (State, Answer) {
    if Real(n) !in st.slots then (st, Code(ERR_INVALID_ARG))
    else if st.slots[Real(n)].obj.None? then (st, Code(ERR_NOT_FOUND))
    else
      (Settle(st, Theory.Revoke(st.slots, Real(n)))
       .(lastRevoked := |Desc(ParentsOf(st.slots), Real(n))|),
       Code(OK))
  }

  /** Answers the number of capabilities destroyed, not a status. */
  ghost function SyscallRevoke(st: State, n: nat): (State, Answer) {
    if n == 0 then (st, Code(ERR_INVALID_ARG))
    else
      var (st', a) := Revoke(st, n);
      if a == Code(OK) then (st', Code(st'.lastRevoked)) else (st', a)
  }

  ghost function UtReset(st: State, n: nat): Answer
    requires Inv(st)
  {
    if !Occupied(st.slots, Real(n)) then Code(ERR_NOT_FOUND)
    else if st.objs[st.slots[Real(n)].obj.value].typ != Untyped then Code(ERR_INVALID_ARG)
    else if st.slots[Real(n)].children != [] then Code(ERR_BUSY)
    else Code(OK)
  }

  // ── the data channel ───────────────────────────────────────────────────────

  /** The words a sender can choose from, by index; the last one moves nothing. */
  function Pattern(i: nat): bv64 {
    match i % 4
    case 0 => 1
    case 1 => 3
    case 2 => 0x8000000000000000
    case _ => 0
  }

  /** The pending word after a signal. */
  function Raise(w: bv64, pat: nat): bv64 { Merge(w, Pattern(pat)) }

  function Merge(v: bv64, w: bv64): bv64 { v | w }

  /** The object a notification capability resolves to, or the refusal. */
  datatype Resolved = Refused(answer: Answer) | Resolved(oid: nat)

  ghost function Resolve(st: State, n: nat, required: nat): (r: Resolved)
    requires Inv(st)
    ensures r.Resolved? ==> Occupied(st.slots, Real(n)) && st.slots[Real(n)].obj == Some(r.oid)
                            && r.oid in st.objs && st.objs[r.oid].typ == Notification
  {
    if n >= st.cfg.spc then Refused(Silent)
    else if Real(n) !in st.slots || n == 0 then Refused(Code(ERR_INVALID_ARG))
    else if st.slots[Real(n)].obj.None? then Refused(Code(ERR_NOT_FOUND))
    else if st.objs[st.slots[Real(n)].obj.value].typ != Notification then Refused(Code(ERR_WRONG_TYPE))
    else if required !in st.slots[Real(n)].rights then Refused(Code(ERR_ACCESS_DENIED))
    else Resolved(st.slots[Real(n)].obj.value)
  }

  ghost function Signal(st: State, n: nat, pat: nat): (State, Answer)
    requires Inv(st)
  {
    match Resolve(st, n, WRITE)
    case Refused(a) => (st, a)
    case Resolved(o) =>
      (st.(objs := st.objs[o := st.objs[o].(bits := Raise(st.objs[o].bits, pat))]), Code(OK))
  }

  ghost function Poll(st: State, n: nat): (State, Answer)
    requires Inv(st)
  {
    match Resolve(st, n, WAIT)
    case Refused(a) => (st, a)
    case Resolved(o) =>
      (st.(objs := st.objs[o := st.objs[o].(bits := 0)]),
       if st.objs[o].bits == 0 then Code(ERR_WOULD_BLOCK) else Bits(st.objs[o].bits))
  }

  // ── address spaces ─────────────────────────────────────────────────────────

  function FrameIndex(frames: seq<nat>, o: nat): (r: Option<nat>)
    ensures r.Some? ==> r.value < |frames| && frames[r.value] == o
    ensures r.None? ==> o !in frames
  {
    if frames == [] then None
    else
      var i := |frames| - 1;
      var r := FrameIndex(frames[..i], o);
      if r.Some? then r else if frames[i] == o then Some(i) else None
  }

  ghost function VFrame(st: State, n: nat): (State, Answer) {
    if n >= st.cfg.spc || |st.frames| >= st.cfg.nframes then (st, Silent)
    else
      var (st', a) := Seed(st, n, Frame, {READ, WRITE, DUPLICATE});
      if a != Code(OK) then (st', a)
      else (st'.(frames := st.frames + [st.nextOid], maps := st'.maps[|st.frames| := {}]), a)
  }

  /** The space's capability, beside the slot mapped through, or below it when that slot is a root. */
  function GrantMapCap(m: Slots, s: SlotId, mc: SlotId): Slots
    requires Occupied(m, s) && s != mc && m[s].parent != Some(mc)
    requires m[s].parent.Some? ==> m[s].parent.value in m
  {
    if Occupied(m, mc) then m
    else Theory.Attach(m, mc, m[s].obj.value, m[s].rights, m[s].badge,
                       if m[s].parent.Some? then m[s].parent.value else s)
  }

  ghost function VMap(st: State, n: nat, va: int, space: nat): (State, Answer)
    requires Inv(st)
  {
    var m := st.slots;
    if n >= st.cfg.ncnodes * st.cfg.spc then (st, Silent)
    else if m[Real(n)].obj.None? || st.objs[m[Real(n)].obj.value].typ != Frame then (st, Code(ERR_WRONG_TYPE))
    else
      var fi := FrameIndex(st.frames, m[Real(n)].obj.value);
      if fi.None? then (st, Code(ERR_WRONG_TYPE))
      else
        var k := space % st.cfg.nspaces;
        if exists f :: f in st.maps && (k, va) in st.maps[f] then (st, Code(ERR_BUSY))
        else
          assert m[Real(n)].parent.Some? ==>
              ChildOf(m, Real(n), m[Real(n)].parent.value) && Lists(m, m[Real(n)].parent.value, Real(n));
          (st.(slots := GrantMapCap(m, Real(n), MapCap(fi.value, k)),
               maps := st.maps[fi.value := st.maps[fi.value] + {(k, va)}]),
           Code(OK))
  }

  ghost function VUnmap(st: State, f: nat, va: int, space: nat): (State, Answer)
    requires Inv(st)
  {
    if f >= st.cfg.nframes then (st, Silent)
    else
      var k := space % st.cfg.nspaces;
      if f >= |st.frames| then (st, Code(ERR_NOT_FOUND))
      else if (k, va) !in st.maps[f] then
        if exists g :: g in st.maps && g != f && (k, va) in st.maps[g]
        then (st, Code(ERR_INVALID_ARG)) else (st, Code(ERR_NOT_FOUND))
      else
        var st1 := st.(maps := st.maps[f := st.maps[f] - {(k, va)}]);
        if MapsInto(st1.maps, f, k) || !Occupied(st.slots, MapCap(f, k)) then (st1, Code(OK))
        else (Settle(st1, Theory.Delete(st.slots, MapCap(f, k))), Code(OK))
  }

  // ── runs ───────────────────────────────────────────────────────────────────

  datatype Op =
    | OpSeed(n: nat, typ: ObjType, rights: Rights)
    | OpInstallUntyped(n: nat)
    | OpRetype(ut: nat, typ: ObjType, dst: nat)
    | OpMint(src: nat, dst: nat, rights: Rights, badge: int)
    | OpSyscallMint(src: nat, dst: nat, rights: Rights, badge: int)
    | OpMove(src: nat, dst: nat)
    | OpRotate(dest: nat, pivot: nat, src: nat)
    | OpDelete(n: nat)
    | OpRevoke(n: nat)
    | OpSyscallRevoke(n: nat)
    | OpUtReset(n: nat)
    | OpSignal(n: nat, pat: nat)
    | OpPoll(n: nat)
    | OpVFrame(n: nat)
    | OpVMap(n: nat, va: int, space: nat)
    | OpVUnmap(f: nat, va: int, space: nat)

  ghost function Step(st: State, op: Op): (State, Answer)
    requires Inv(st)
  {
    match op
    case OpSeed(n, t, r) => Seed(st, n, t, r)
    case OpInstallUntyped(n) => InstallUntyped(st, n)
    case OpRetype(u, t, d) => Retype(st, u, t, d)
    case OpMint(s, d, r, b) => Mint(st, s, d, r, b)
    case OpSyscallMint(s, d, r, b) => SyscallMint(st, s, d, r, b)
    case OpMove(s, d) => Move(st, s, d)
    case OpRotate(d, p, s) => Rotate(st, d, p, s)
    case OpDelete(n) => Delete(st, n)
    case OpRevoke(n) => Revoke(st, n)
    case OpSyscallRevoke(n) => SyscallRevoke(st, n)
    case OpUtReset(n) => (st, UtReset(st, n))
    case OpSignal(n, p) => Signal(st, n, p)
    case OpPoll(n) => Poll(st, n)
    case OpVFrame(n) => VFrame(st, n)
    case OpVMap(n, va, k) => VMap(st, n, va, k)
    case OpVUnmap(f, va, k) => VUnmap(st, f, va, k)
  }
}
