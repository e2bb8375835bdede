/** The data channel over whole runs: what is signalled is delivered, once, to whoever polls. */
module Notifications {
  import opened Wrappers
  import opened Forest
  import opened Authority
  import Theory
  import opened Operations
  import opened Preservation
  import Model
  import Runs
  import opened Outcomes

  /** What an operation did to the channel, as its answer shows it. */
  datatype Event = Signalled(oid: nat, word: bv64) | Polled(oid: nat, got: bv64) | Nothing

  ghost function EventOf(st: State, op: Op): Event
    requires Inv(st)
  {
    var a := Step(st, op).1;
    match op
    case OpSignal(n, p) =>
      if a == Code(OK) && Occupied(st.slots, Real(n)) then Signalled(st.slots[Real(n)].obj.value, Pattern(p)) else Nothing
    case OpPoll(n) =>
      if a.Bits? && Occupied(st.slots, Real(n)) then Polled(st.slots[Real(n)].obj.value, a.word)
      else if a == Code(ERR_WOULD_BLOCK) && Occupied(st.slots, Real(n)) then Polled(st.slots[Real(n)].obj.value, 0)
      else Nothing
    case _ => Nothing
  }

  ghost function Log(st: State, ops: seq<Op>): seq<Event>
    requires Inv(st)
  {
    if ops == [] then [] else
      Log(st, ops[..|ops| - 1]) + [EventOf(Runs.Run(st, ops[..|ops| - 1]), ops[|ops| - 1])]
  }

  /** The OR of the words signalled to `o` since the last time `o` was polled. */
  function Owed(log: seq<Event>, o: nat): bv64 {
    if log == [] then 0 as bv64 else
      match log[|log| - 1]
      case Signalled(o', w) => if o' == o then Merge(Owed(log[..|log| - 1], o), w) else Owed(log[..|log| - 1], o)
      case Polled(o', _) => if o' == o then 0 else Owed(log[..|log| - 1], o)
      case Nothing => Owed(log[..|log| - 1], o)
  }

  /** What is pending on `o`; nothing before `o` exists. */
  ghost function Pending(st: State, o: nat): bv64 {
    if o in st.objs then st.objs[o].bits else 0
  }

  /** Operations other than signal and poll move no bits, and new objects have none. */
  lemma OthersKeepPending(st: State, op: Op, o: nat)
    requires Inv(st) && !op.OpSignal? && !op.OpPoll?
    ensures Pending(Step(st, op).0, o) == Pending(st, o)
  {
    hide Inv, Theory.Delete, Theory.Revoke, Theory.Conjugate, Theory.Move, Theory.Attach, Theory.Derive, Theory.CanDerive, Named, Swept;
    NextIsNew(st);
  }

  lemma NextIsNew(st: State)
    requires Inv(st)
    ensures st.nextOid !in st.objs
  {}

  /** Each operation moves the pending word as its event says. */
  lemma StepPending(st: State, op: Op, o: nat)
    requires Inv(st)
    ensures Pending(Step(st, op).0, o) ==
            match EventOf(st, op)
            case Signalled(o', w) => if o' == o then Merge(Pending(st, o), w) else Pending(st, o)
            case Polled(o', _) => if o' == o then 0 else Pending(st, o)
            case Nothing => Pending(st, o)
  {
    hide Inv, Pattern, Merge, Retype, Seed, InstallUntyped, Mint, SyscallMint, Move, Rotate, Delete, Revoke, SyscallRevoke, VFrame, VMap, VUnmap;
    if !op.OpSignal? && !op.OpPoll? { OthersKeepPending(st, op, o); }
  }

  /** In every run, what is pending is exactly what is owed. */
  lemma {:induction false} PendingIsOwed(cfg: Config, ops: seq<Op>, o: nat)
    requires Inv(Model.Initial(cfg))
    ensures Pending(Runs.Run(Model.Initial(cfg), ops), o) == Owed(Log(Model.Initial(cfg), ops), o)
  {
    hide Inv, Step, EventOf, Merge;
    if ops != [] {
      var i, st0 := |ops| - 1, Model.Initial(cfg);
      PendingIsOwed(cfg, ops[..i], o);
      StepPending(Runs.Run(st0, ops[..i]), ops[i], o);
      var log := Log(st0, ops[..i]);
      assert Log(st0, ops)[..|Log(st0, ops)| - 1] == log;
    }
  }

  /** Conservation: through whatever capability, in every run, a poll that resolves returns exactly
      the words signalled since the previous one, and would block exactly when there are none. */
  lemma PollDelivers(cfg: Config, ops: seq<Op>, n: nat)
    requires Inv(Model.Initial(cfg))
    ensures var st := Runs.Run(Model.Initial(cfg), ops);
            Resolve(st, n, WAIT).Resolved? ==>
              var owed := Owed(Log(Model.Initial(cfg), ops), Resolve(st, n, WAIT).oid);
              Poll(st, n).1 == if owed == 0 then Code(ERR_WOULD_BLOCK) else Bits(owed)
  {
    hide Tree, Edges, Live, MappingAuthority, FrameTable, Owed, Model.Initial;
    var st := Runs.Run(Model.Initial(cfg), ops);
    if Resolve(st, n, WAIT).Resolved? { PendingIsOwed(cfg, ops, Resolve(st, n, WAIT).oid); }
  }

  lemma PolledIsPending(st: State, op: Op)
    requires Inv(st)
    ensures EventOf(st, op).Polled? ==> EventOf(st, op).got == Pending(st, EventOf(st, op).oid)
  {
    hide Tree, Edges, Live, MappingAuthority, FrameTable;
  }

  /** What the log says was polled is what was owed at that moment: nothing is lost or made up. */
  lemma PollsAreExact(cfg: Config, ops: seq<Op>, i: nat)
    requires Inv(Model.Initial(cfg)) && i < |ops|
    ensures var e := EventOf(Runs.Run(Model.Initial(cfg), ops[..i]), ops[i]);
            e.Polled? ==> e.got == Owed(Log(Model.Initial(cfg), ops[..i]), e.oid)
  {
    hide Inv, Step, EventOf, Owed, Model.Initial;
    var st := Runs.Run(Model.Initial(cfg), ops[..i]);
    PolledIsPending(st, ops[i]);
    if EventOf(st, ops[i]).Polled? { PendingIsOwed(cfg, ops[..i], EventOf(st, ops[i]).oid); }
  }

  // ── bit by bit, from the operations alone ──────────────────────────────────

  /** Operation `i` of a run signalled `o`, successfully, with a pattern that has a bit of the mask. */
  ghost predicate SignalledAt(st: State, ops: seq<Op>, i: int, o: nat, mask: bv64)
    requires Inv(st)
  {
    && 0 <= i < |ops| && ops[i].OpSignal?
    && var now := Runs.Run(st, ops[..i]);
       Invocable(now, ops[i].n, WRITE) && now.slots[Real(ops[i].n)].obj == Some(o) && Carries(Pattern(ops[i].pat), mask)
  }

  /** Operation `j` polled `o`, successfully or to find nothing. */
  ghost predicate PolledAt(st: State, ops: seq<Op>, j: int, o: nat)
    requires Inv(st)
  {
    && 0 <= j < |ops| && ops[j].OpPoll?
    && var now := Runs.Run(st, ops[..j]);
       Invocable(now, ops[j].n, WAIT) && now.slots[Real(ops[j].n)].obj == Some(o)
  }

  /** Signalled at `i`, and not polled since. */
  ghost predicate Outstanding(st: State, ops: seq<Op>, i: int, o: nat, mask: bv64)
    requires Inv(st)
  {
    SignalledAt(st, ops, i, o, mask) && forall j :: i < j < |ops| ==> !PolledAt(st, ops, j, o)
  }

  /** One more operation leaves the earlier ones what they were. */
  lemma EarlierKept(st: State, ops: seq<Op>, op: Op, i: int, o: nat, mask: bv64)
    requires Inv(st) && 0 <= i < |ops|
    ensures SignalledAt(st, ops + [op], i, o, mask) <==> SignalledAt(st, ops, i, o, mask)
    ensures PolledAt(st, ops + [op], i, o) <==> PolledAt(st, ops, i, o)
  {
    hide Inv, Runs.Run, Invocable, Carries;
    assert (ops + [op])[..i] == ops[..i];
  }

  lemma OutstandingNext(st: State, ops: seq<Op>, op: Op, o: nat, mask: bv64)
    requires Inv(st)
    ensures (exists i :: Outstanding(st, ops + [op], i, o, mask)) <==>
            SignalledAt(st, ops + [op], |ops|, o, mask)
            || (!PolledAt(st, ops + [op], |ops|, o) && exists i :: Outstanding(st, ops, i, o, mask))
  {
    hide Inv, SignalledAt, PolledAt;
    var all, n := ops + [op], |ops|;
    forall i | 0 <= i < n
      ensures SignalledAt(st, all, i, o, mask) <==> SignalledAt(st, ops, i, o, mask)
      ensures PolledAt(st, all, i, o) <==> PolledAt(st, ops, i, o)
    {
      EarlierKept(st, ops, op, i, o, mask);
    }
    forall i ensures SignalledAt(st, all, i, o, mask) ==> 0 <= i <= n { InRange(st, all, i, o, mask); }
    forall i ensures SignalledAt(st, ops, i, o, mask) ==> 0 <= i < n { InRange(st, ops, i, o, mask); }
    if SignalledAt(st, all, n, o, mask) { assert Outstanding(st, all, n, o, mask); }
    if i :| Outstanding(st, ops, i, o, mask) {
      if !PolledAt(st, all, n, o) { assert Outstanding(st, all, i, o, mask); }
    }
    if i :| Outstanding(st, all, i, o, mask) {
      if i < n { assert Outstanding(st, ops, i, o, mask); }
    }
  }

  lemma InRange(st: State, ops: seq<Op>, i: int, o: nat, mask: bv64)
    requires Inv(st)
    ensures SignalledAt(st, ops, i, o, mask) ==> 0 <= i < |ops|
  {
    hide Inv;
  }

  /** How one operation moves one bit of one object. */
  lemma StepBit(st: State, op: Op, o: nat, mask: bv64)
    requires Inv(st)
    ensures var signalled := op.OpSignal? && Invocable(st, op.n, WRITE) && st.slots[Real(op.n)].obj == Some(o) && Carries(Pattern(op.pat), mask);
            var polled := op.OpPoll? && Invocable(st, op.n, WAIT) && st.slots[Real(op.n)].obj == Some(o);
            Carries(Pending(Step(st, op).0, o), mask) <==> signalled || (!polled && Carries(Pending(st, o), mask))
  {
    hide Inv, Step, Pattern, Carries, Refuses;
    NothingCarried(mask);
    match op
    case OpSignal(n, p) => SignalEffect(st, n, p, mask);
    case OpPoll(n) => PollEffect(st, n);
    case _ => OthersKeepPending(st, op, o);
  }

  lemma NothingCarried(mask: bv64)
    ensures !Carries(0, mask)
  {}

  /** Conservation, bit by bit: after any run, a bit is pending on an object exactly when some successful
      signal to it carried that bit and no poll of it has succeeded since. */
  lemma {:induction false} BitsConserved(cfg: Config, ops: seq<Op>, o: nat, mask: bv64)
    requires Inv(Model.Initial(cfg))
    ensures Carries(Pending(Runs.Run(Model.Initial(cfg), ops), o), mask) <==>
            exists i :: Outstanding(Model.Initial(cfg), ops, i, o, mask)
  {
    hide Inv, Step, Carries, Pattern, Invocable, Outstanding;
    var st0 := Model.Initial(cfg);
    if ops == [] {
      NothingCarried(mask);
      forall i ensures !Outstanding(st0, [], i, o, mask) { NoneYet(st0, i, o, mask); }
    } else {
      var n := |ops| - 1;
      var before, op := ops[..n], ops[n];
      assert ops == before + [op];
      assert (before + [op])[..n] == before;
      BitsConserved(cfg, before, o, mask);
      OutstandingNext(st0, before, op, o, mask);
      StepBit(Runs.Run(st0, before), op, o, mask);
    }
  }

  lemma NoneYet(st: State, i: int, o: nat, mask: bv64)
    requires Inv(st)
    ensures !Outstanding(st, [], i, o, mask)
  {
    hide Inv;
  }

  /** So a poll that finds something has exactly those bits in its answer, and one that would block has none. */
  lemma PollReturnsBits(cfg: Config, ops: seq<Op>, n: nat, mask: bv64)
    requires Inv(Model.Initial(cfg)) && Invocable(Runs.Run(Model.Initial(cfg), ops), n, WAIT)
    ensures var st := Runs.Run(Model.Initial(cfg), ops);
            var a, o := Step(st, OpPoll(n)).1, st.slots[Real(n)].obj.value;
            var owed := exists i :: Outstanding(Model.Initial(cfg), ops, i, o, mask);
            && (a.Bits? ==> (Carries(a.word, mask) <==> owed))
            && (!a.Bits? ==> a == Code(ERR_WOULD_BLOCK) && !owed)
  {
    hide Inv, Step, Carries, Outstanding, Runs.Run;
    var st := Runs.Run(Model.Initial(cfg), ops);
    PollEffect(st, n);
    BitsConserved(cfg, ops, st.slots[Real(n)].obj.value, mask);
    NothingCarried(mask);
  }
}
