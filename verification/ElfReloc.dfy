/** The relative-relocation pass over the segments of an image. */
module ElfReloc {
  import opened Wrappers
  import opened Bytes

  const R_X86_64_RELATIVE: nat := 8
  const RELA_BYTES: nat := 24
  const INVALID_ARG := -1
  const DT_NULL := 0
  const DT_RELA := 7
  const DT_RELASZ := 8
  const DT_RELAENT := 9

  /** One table entry, each field a 64-bit word; the addend's is two's complement. */
  datatype Rela = Rela(offset: nat, info: nat, addend: nat) {
    predicate Relative() { info % 0x1_0000_0000 == R_X86_64_RELATIVE }
  }

  /** Where the image says a segment lives and how long it is. */
  datatype Window = Window(vaddr: nat, bytes: nat)

  type Memory = seq<seq<byte>>

  /** One byte sequence per window. */
  ghost predicate Fits(ws: seq<Window>, mem: Memory) {
    |mem| == |ws| && forall s :: 0 <= s < |ws| ==> |mem[s]| == ws[s].bytes
  }

  /** The test of the segment scan, in 64-bit arithmetic. */
  predicate Accepts(w: Window, offset: nat) {
    offset >= w.vaddr && (offset - w.vaddr + 8) % U64 <= w.bytes
  }

  /** The first segment that accepts a site. */
  function Locate(ws: seq<Window>, offset: nat, from: nat): (r: Option<nat>)
    requires from <= |ws|
    ensures r.Some? ==> from <= r.value < |ws| && Accepts(ws[r.value], offset)
                        && forall s :: from <= s < r.value ==> !Accepts(ws[s], offset)
    ensures r.None? ==> forall s :: from <= s < |ws| ==> !Accepts(ws[s], offset)
    decreases |ws| - from
  {
    if from == |ws| then None
    else if Accepts(ws[from], offset) then Some(from)
    else Locate(ws, offset, from + 1)
  }

  /** An accepted site lies inside its segment exactly when its end does not wrap around. */
  lemma AcceptedIsInside(w: Window, offset: nat)
    requires w.bytes < U64 && offset < U64 && Accepts(w, offset)
    ensures offset - w.vaddr + 8 <= w.bytes <==> offset - w.vaddr + 8 < U64
  {}

  /** Short of the wrap the test is what it says: eight bytes from the site lie in the window. */
  lemma AcceptsInside(w: Window, offset: nat)
    requires w.bytes < U64 && w.vaddr <= offset + 8 && offset - w.vaddr + 8 < U64
    ensures Accepts(w, offset) <==> w.vaddr <= offset && offset + 8 <= w.vaddr + w.bytes
  {}

  /** And the 64-bit test does accept such a site: eight bytes at the last address, in a segment of
      eight bytes at zero. */
  lemma WrappedSiteAccepted()
    ensures Accepts(Window(0, 8), U64 - 1) && U64 - 1 + 8 > 8
  {}

  function Value(bias: nat, addend: nat): nat { (bias + addend) % U64 }

  /** Eight bytes at a site; what was there is not read. */
  function Store(mem: Memory, s: nat, at: nat, v: nat): Memory
    requires s < |mem| && at + 8 <= |mem[s]|
  {
    mem[s := mem[s][..at] + Le(v, 8) + mem[s][at + 8..]]
  }

  /** A site is refused or lies inside the segment that accepts it. */
  predicate SiteInside(ws: seq<Window>, offset: nat) {
    match Locate(ws, offset, 0)
    case None => true
    case Some(s) => offset - ws[s].vaddr + 8 <= ws[s].bytes
  }

  /** No relative site is accepted by a segment it reaches out of. */
  ghost predicate Contained(ws: seq<Window>, table: seq<Rela>) {
    forall i :: 0 <= i < |table| && table[i].Relative() ==> SiteInside(ws, table[i].offset)
  }

  /** That is so exactly when no accepted site's end wraps around 64 bits. */
  lemma {:induction false} ContainedIff(ws: seq<Window>, table: seq<Rela>)
    requires forall s :: 0 <= s < |ws| ==> ws[s].bytes < U64
    requires forall i :: 0 <= i < |table| ==> table[i].offset < U64
    ensures Contained(ws, table) <==>
            forall i :: 0 <= i < |table| && table[i].Relative() && Locate(ws, table[i].offset, 0).Some? ==>
              table[i].offset - ws[Locate(ws, table[i].offset, 0).value].vaddr + 8 < U64
  {
    forall i | 0 <= i < |table| && table[i].Relative() && Locate(ws, table[i].offset, 0).Some?
      ensures SiteInside(ws, table[i].offset) <==>
              table[i].offset - ws[Locate(ws, table[i].offset, 0).value].vaddr + 8 < U64
    {
      AcceptedIsInside(ws[Locate(ws, table[i].offset, 0).value], table[i].offset);
    }
  }

  ghost predicate Layout(ws: seq<Window>, mem: Memory, table: seq<Rela>) {
    Fits(ws, mem) && Contained(ws, table)
  }

  datatype Outcome = Outcome(mem: Memory, code: int)

  /** The pass from entry `i` on, with `applied` already done. */
  function Pass(ws: seq<Window>, mem: Memory, table: seq<Rela>, bias: nat, i: nat, applied: nat): (r: Outcome)
    requires Layout(ws, mem, table) && i <= |table|
    ensures Fits(ws, r.mem)
    decreases |table| - i
  {
    if i == |table| then Outcome(mem, applied)
    else
      var r := table[i];
      if !r.Relative() then Pass(ws, mem, table, bias, i + 1, applied)
      else
        match Locate(ws, r.offset, 0)
        case None => Outcome(mem, INVALID_ARG)
        case Some(s) =>
          Pass(ws, Store(mem, s, r.offset - ws[s].vaddr, Value(bias, r.addend)), table, bias, i + 1, applied + 1)
  }

  /** Byte `x` of segment `s` belongs to a site from entry `i` on. */
  ghost predicate Touched(ws: seq<Window>, table: seq<Rela>, i: nat, s: nat, x: nat) {
    exists k :: i <= k < |table| && TouchedBy(ws, table[k], s, x)
  }

  ghost predicate TouchedBy(ws: seq<Window>, r: Rela, s: nat, x: nat) {
    r.info % 0x1_0000_0000 == 8 && Locate(ws, r.offset, 0) == Some(s) && s < |ws|
    && r.offset - ws[s].vaddr <= x < r.offset - ws[s].vaddr + 8
  }

  lemma StoreAt(mem: Memory, s: nat, at: nat, v: nat, t: nat, x: nat)
    requires s < |mem| && at + 8 <= |mem[s]| && t < |mem| && x < |mem[t]|
    ensures |Store(mem, s, at, v)| == |mem| && |Store(mem, s, at, v)[t]| == |mem[t]|
    ensures Store(mem, s, at, v)[t][x] == if t == s && at <= x < at + 8 then Le(v, 8)[x - at] else mem[t][x]
  {}

  /** The pass writes inside the segments, and only at sites. */
  lemma {:induction false} PassOnlySites(ws: seq<Window>, mem: Memory, table: seq<Rela>, bias: nat, i: nat, applied: nat, s: nat, x: nat)
    requires Layout(ws, mem, table) && i <= |table| && s < |mem| && x < |mem[s]|
    requires !Touched(ws, table, i, s, x)
    ensures Pass(ws, mem, table, bias, i, applied).mem[s][x] == mem[s][x]
    decreases |table| - i
  {
    hide Le;
    if i < |table| {
      var r := table[i];
      assert !Touched(ws, table, i + 1, s, x);
      if !r.Relative() {
        PassOnlySites(ws, mem, table, bias, i + 1, applied, s, x);
      } else if Locate(ws, r.offset, 0).Some? {
        var t := Locate(ws, r.offset, 0).value;
        var at, v := r.offset - ws[t].vaddr, Value(bias, r.addend);
        assert !TouchedBy(ws, r, s, x);
        StoreAt(mem, t, at, v, s, x);
        PassOnlySites(ws, Store(mem, t, at, v), table, bias, i + 1, applied + 1, s, x);
      }
    }
  }

  /** Two memories that differ at most at sites. */
  ghost predicate SameElsewhere(ws: seq<Window>, table: seq<Rela>, i: nat, m1: Memory, m2: Memory) {
    forall s: nat, x: nat :: s < |m1| && s < |m2| && x < |m1[s]| && x < |m2[s]| && !Touched(ws, table, i, s, x) ==>
      m1[s][x] == m2[s][x]
  }

  /** Whatever the sites held before, a pass that succeeds leaves the same memory; and whether it
      succeeds depends on the table and the segments alone. */
  lemma {:induction false} PassForgetsSites(ws: seq<Window>, m1: Memory, m2: Memory, table: seq<Rela>, b1: nat, b2: nat, i: nat, applied: nat)
    requires Layout(ws, m1, table) && Layout(ws, m2, table) && i <= |table|
    ensures Pass(ws, m1, table, b1, i, applied).code == Pass(ws, m2, table, b2, i, applied).code
    ensures b1 == b2 && SameElsewhere(ws, table, i, m1, m2) && Pass(ws, m1, table, b1, i, applied).code >= 0 ==>
              Pass(ws, m1, table, b1, i, applied).mem == Pass(ws, m2, table, b2, i, applied).mem
    decreases |table| - i
  {
    hide Le;
    if i == |table| {
      if SameElsewhere(ws, table, i, m1, m2) { SameEverywhere(ws, table, m1, m2); }
    } else {
      var r := table[i];
      if !r.Relative() {
        if SameElsewhere(ws, table, i, m1, m2) { SkipSite(ws, table, i, m1, m2); }
        PassForgetsSites(ws, m1, m2, table, b1, b2, i + 1, applied);
      } else if Locate(ws, r.offset, 0).Some? {
        var t := Locate(ws, r.offset, 0).value;
        var at := r.offset - ws[t].vaddr;
        var n1, n2 := Store(m1, t, at, Value(b1, r.addend)), Store(m2, t, at, Value(b2, r.addend));
        if b1 == b2 && SameElsewhere(ws, table, i, m1, m2) { StoreBoth(ws, table, i, m1, m2, t, at, Value(b1, r.addend)); }
        PassForgetsSites(ws, n1, n2, table, b1, b2, i + 1, applied + 1);
      }
    }
  }

  lemma SameEverywhere(ws: seq<Window>, table: seq<Rela>, m1: Memory, m2: Memory)
    requires Fits(ws, m1) && Fits(ws, m2) && SameElsewhere(ws, table, |table|, m1, m2)
    ensures m1 == m2
  {
    forall s: nat | s < |m1| ensures m1[s] == m2[s] {
      forall x: nat | x < |m1[s]| ensures m1[s][x] == m2[s][x] { assert !Touched(ws, table, |table|, s, x); }
    }
  }

  lemma SkipSite(ws: seq<Window>, table: seq<Rela>, i: nat, m1: Memory, m2: Memory)
    requires i < |table| && !table[i].Relative() && SameElsewhere(ws, table, i, m1, m2)
    ensures SameElsewhere(ws, table, i + 1, m1, m2)
  {
    forall s: nat, x: nat | s < |m1| && s < |m2| && x < |m1[s]| && x < |m2[s]| && !Touched(ws, table, i + 1, s, x)
      ensures m1[s][x] == m2[s][x]
    {
      assert !TouchedBy(ws, table[i], s, x);
      assert !Touched(ws, table, i, s, x);
    }
  }

  /** After the same store, the site no longer distinguishes the two. */
  lemma StoreBoth(ws: seq<Window>, table: seq<Rela>, i: nat, m1: Memory, m2: Memory, t: nat, at: nat, v: nat)
    requires Fits(ws, m1) && Fits(ws, m2) && i < |table| && table[i].Relative()
    requires Locate(ws, table[i].offset, 0) == Some(t) && t < |ws| && at == table[i].offset - ws[t].vaddr && at + 8 <= ws[t].bytes
    requires SameElsewhere(ws, table, i, m1, m2)
    ensures SameElsewhere(ws, table, i + 1, Store(m1, t, at, v), Store(m2, t, at, v))
  {
    hide Le;
    var n1, n2 := Store(m1, t, at, v), Store(m2, t, at, v);
    forall s: nat, x: nat | s < |n1| && s < |n2| && x < |n1[s]| && x < |n2[s]| && !Touched(ws, table, i + 1, s, x)
      ensures n1[s][x] == n2[s][x]
    {
      StoreAt(m1, t, at, v, s, x);
      StoreAt(m2, t, at, v, s, x);
      if !TouchedBy(ws, table[i], s, x) { assert !Touched(ws, table, i, s, x); }
    }
  }

  /** No entry from `i` on writes any of the eight bytes. */
  ghost predicate Settled(ws: seq<Window>, table: seq<Rela>, i: nat, s: nat, at: nat) {
    forall x: nat :: at <= x < at + 8 ==> !Touched(ws, table, i, s, x)
  }

  /** A site no later relocation overlaps ends up holding bias plus addend. */
  lemma {:induction false} SiteHolds(ws: seq<Window>, mem: Memory, table: seq<Rela>, bias: nat, i: nat, applied: nat, k: nat)
    requires Layout(ws, mem, table) && i <= k < |table| && table[k].info % 0x1_0000_0000 == 8
    requires Pass(ws, mem, table, bias, i, applied).code >= 0
    requires Locate(ws, table[k].offset, 0).Some?
    requires var s := Locate(ws, table[k].offset, 0).value;
             Settled(ws, table, k + 1, s, table[k].offset - ws[s].vaddr)
    ensures var s := Locate(ws, table[k].offset, 0).value;
            var at := table[k].offset - ws[s].vaddr;
            at + 8 <= ws[s].bytes
            && FromLe(Pass(ws, mem, table, bias, i, applied).mem[s][at..at + 8]) == (bias + table[k].addend) % U64
    decreases k - i
  {
    hide Le, FromLe;
    var r := table[i];
    if i < k {
      if !r.Relative() {
        SiteHolds(ws, mem, table, bias, i + 1, applied, k);
      } else {
        var t := Locate(ws, r.offset, 0).value;
        SiteHolds(ws, Store(mem, t, r.offset - ws[t].vaddr, Value(bias, r.addend)), table, bias, i + 1, applied + 1, k);
      }
    } else {
      var s := Locate(ws, r.offset, 0).value;
      var at, v := r.offset - ws[s].vaddr, Value(bias, r.addend);
      var m := Store(mem, s, at, v);
      var done := Pass(ws, m, table, bias, i + 1, applied + 1).mem;
      forall x: nat | at <= x < at + 8 ensures done[s][x] == Le(v, 8)[x - at] {
        StoreAt(mem, s, at, v, s, x);
        PassOnlySites(ws, m, table, bias, i + 1, applied + 1, s, x);
      }
      assert done[s][at..at + 8] == Le(v, 8);
      WordRoundTrip(v);
    }
  }

  function Relocate(ws: seq<Window>, mem: Memory, table: seq<Rela>, bias: nat): Outcome
    requires Layout(ws, mem, table)
  {
    Pass(ws, mem, table, bias, 0, 0)
  }

  /** The relative entries from `i` on. */
  ghost function Relatives(table: seq<Rela>, i: nat): set<int> {
    set k | i <= k < |table| && table[k].info % 0x1_0000_0000 == 8
  }

  lemma RelativesNext(table: seq<Rela>, i: nat)
    requires i < |table|
    ensures |Relatives(table, i)| == |Relatives(table, i + 1)| + if table[i].Relative() then 1 else 0
  {
    if table[i].Relative() {
      assert Relatives(table, i) == Relatives(table, i + 1) + {i};
    } else {
      assert Relatives(table, i) == Relatives(table, i + 1);
    }
  }

  /** A pass that gets to the end answers how many relative entries there are. */
  lemma {:induction false} PassCounts(ws: seq<Window>, mem: Memory, table: seq<Rela>, bias: nat, i: nat, applied: nat)
    requires Layout(ws, mem, table) && i <= |table| && Pass(ws, mem, table, bias, i, applied).code >= 0
    ensures Pass(ws, mem, table, bias, i, applied).code == applied + |Relatives(table, i)|
    decreases |table| - i
  {
    hide Pass, Locate, Store, Relatives, Contained, Fits;
    if i == |table| {
      PassEnd(ws, mem, table, bias, applied);
      NoRelatives(table);
    } else {
      PassStep(ws, mem, table, bias, i, applied);
      RelativesNext(table, i);
      var r := table[i];
      if r.Relative() {
        var t := Locate(ws, r.offset, 0).value;
        SiteFits(ws, mem, r);
        PassCounts(ws, Store(mem, t, r.offset - ws[t].vaddr, Value(bias, r.addend)), table, bias, i + 1, applied + 1);
      } else {
        PassCounts(ws, mem, table, bias, i + 1, applied);
      }
    }
  }

  lemma NoRelatives(table: seq<Rela>)
    ensures Relatives(table, |table|) == {}
  {}

  lemma SiteFits(ws: seq<Window>, mem: Memory, r: Rela)
    requires Fits(ws, mem) && SiteInside(ws, r.offset) && Locate(ws, r.offset, 0).Some?
    ensures var s := Locate(ws, r.offset, 0).value; s < |mem| && r.offset - ws[s].vaddr + 8 <= |mem[s]|
  {}

  /** Where a pass stops: the first relative entry no segment accepts, or the end. */
  function Stop(ws: seq<Window>, table: seq<Rela>, i: nat): (n: nat)
    requires i <= |table|
    ensures i <= n <= |table|
    decreases |table| - i
  {
    if i == |table| || (table[i].Relative() && Locate(ws, table[i].offset, 0).None?) then i else Stop(ws, table, i + 1)
  }

  /** A pass that stops has done the entries before, all of which it could apply. */
  lemma {:induction false} PassStops(ws: seq<Window>, mem: Memory, table: seq<Rela>, bias: nat, i: nat, n: nat, applied: nat)
    requires Layout(ws, mem, table) && i <= |table| && n == Stop(ws, table, i)
    ensures Layout(ws, mem, table[..n])
    ensures Pass(ws, mem, table, bias, i, applied).mem == Pass(ws, mem, table[..n], bias, i, applied).mem
    ensures Pass(ws, mem, table[..n], bias, i, applied).code >= 0
    ensures Pass(ws, mem, table, bias, i, applied).code ==
            if n < |table| then INVALID_ARG else Pass(ws, mem, table[..n], bias, i, applied).code
    decreases |table| - i
  {
    hide Le;
    if n == |table| { assert table[..n] == table; }
    if i < n {
      var r := table[i];
      assert table[..n][i] == r;
      if !r.Relative() {
        PassStops(ws, mem, table, bias, i + 1, n, applied);
      } else {
        var t := Locate(ws, r.offset, 0).value;
        assert SiteInside(ws, r.offset);
        PassStops(ws, Store(mem, t, r.offset - ws[t].vaddr, Value(bias, r.addend)), table, bias, i + 1, n, applied + 1);
      }
    }
  }

  /** Relocating again at another bias is relocating once at that bias, overlapping sites included, and
      whether or not the pass gets to the end of the table. */
  lemma LastBiasWins(ws: seq<Window>, mem: Memory, table: seq<Rela>, b1: nat, b2: nat)
    requires Layout(ws, mem, table)
    ensures Relocate(ws, Relocate(ws, mem, table, b1).mem, table, b2) == Relocate(ws, mem, table, b2)
  {
    hide Pass, Stop;
    var n, m1 := Stop(ws, table, 0), Relocate(ws, mem, table, b1).mem;
    PassStops(ws, mem, table, b1, 0, n, 0);
    PassStops(ws, mem, table, b2, 0, n, 0);
    PassStops(ws, m1, table, b2, 0, n, 0);
    WholeLastBiasWins(ws, mem, table[..n], b1, b2);
  }

  lemma WholeLastBiasWins(ws: seq<Window>, mem: Memory, table: seq<Rela>, b1: nat, b2: nat)
    requires Layout(ws, mem, table) && Relocate(ws, mem, table, b1).code >= 0
    ensures Relocate(ws, Relocate(ws, mem, table, b1).mem, table, b2) == Relocate(ws, mem, table, b2)
  {
    hide Pass;
    var m1 := Relocate(ws, mem, table, b1).mem;
    PassForgetsSites(ws, mem, m1, table, b1, b2, 0, 0);
    PassForgetsSites(ws, mem, m1, table, b2, b2, 0, 0);
    forall s: nat, x: nat | s < |mem| && s < |m1| && x < |mem[s]| && x < |m1[s]| && !Touched(ws, table, 0, s, x)
      ensures mem[s][x] == m1[s][x]
    {
      PassOnlySites(ws, mem, table, b1, 0, 0, s, x);
    }
  }

  lemma RelocateIdempotent(ws: seq<Window>, mem: Memory, table: seq<Rela>, bias: nat)
    requires Layout(ws, mem, table)
    ensures Relocate(ws, Relocate(ws, mem, table, bias).mem, table, bias) == Relocate(ws, mem, table, bias)
  {
    LastBiasWins(ws, mem, table, bias, bias);
  }

  /** Entries are `ent` bytes apart, and only the whole ones count. */
  function Entry(rela: seq<byte>, ent: nat, i: nat): Rela
    requires ent >= RELA_BYTES && i < |rela| / ent
  {
    EntryInside(|rela|, ent, i);
    Rela(FromLe(rela[i * ent..i * ent + 8]), FromLe(rela[i * ent + 8..i * ent + 16]), FromLe(rela[i * ent + 16..i * ent + 24]))
  }

  lemma EntryInside(n: nat, ent: nat, i: nat)
    requires ent >= RELA_BYTES && i < n / ent
    ensures i * ent + RELA_BYTES <= n
  {
    assert (i + 1) * ent <= n / ent * ent by { MulMonotone(i + 1, n / ent, ent); }
    assert n / ent * ent <= n;
  }

  lemma MulMonotone(a: nat, b: nat, k: nat)
    requires a <= b
    ensures a * k <= b * k
  {}

  function Table(rela: seq<byte>, ent: nat): (t: seq<Rela>)
    requires ent >= RELA_BYTES
    ensures |t| == |rela| / ent
  {
    seq(|rela| / ent, i requires 0 <= i < |rela| / ent => Entry(rela, ent, i))
  }

  /** A segment as the caller has it: its window, and the memory behind it. */
  datatype Segment = Segment(window: Window, host: array<byte>)

  function Windows(segs: seq<Segment>): (ws: seq<Window>)
    ensures |ws| == |segs|
  {
    seq(|segs|, s requires 0 <= s < |segs| => segs[s].window)
  }

  ghost function Hosts(segs: seq<Segment>): set<array<byte>> {
    set s | 0 <= s < |segs| :: segs[s].host
  }

  /** Every window is backed in full, and no two share memory. */
  ghost predicate Backed(segs: seq<Segment>) {
    (forall s :: 0 <= s < |segs| ==> segs[s].host.Length == segs[s].window.bytes)
    && forall s, t :: 0 <= s < t < |segs| ==> segs[s].host != segs[t].host
  }

  ghost function Contents(segs: seq<Segment>): (mem: Memory)
    reads Hosts(segs)
    ensures |mem| == |segs| && forall s :: 0 <= s < |segs| ==> mem[s] == segs[s].host[..]
  {
    seq(|segs|, s requires 0 <= s < |segs| reads Hosts(segs) => segs[s].host[..])
  }

  /** The byte-at-a-time store. */
  method StoreBytes(host: array<byte>, at: nat, v: nat)
    requires at + 8 <= host.Length
    modifies host
    ensures host[..] == old(host[..at]) + Le(v, 8) + old(host[at + 8..])
  {
    hide Le;
    var rest := v;
    for b := 0 to 8
      invariant host[..at] == old(host[..at]) && host[at + 8..] == old(host[at + 8..])
      invariant Le(v, 8) == host[at..at + b] + Le(rest, 8 - b)
    {
      ghost var before := host[at..at + b];
      LeStep(rest, 8 - b);
      host[at + b] := rest % 256;
      rest := rest / 256;
      assert host[at..at + b + 1] == before + [host[at + b]];
    }
    assert host[..] == host[..at] + host[at..at + 8] + host[at + 8..];
  }

  /** The scan for the segment a site belongs to. */
  method FindSegment(segs: seq<Segment>, offset: nat) returns (s: nat)
    ensures s <= |segs|
    ensures Locate(Windows(segs), offset, 0) == if s == |segs| then None else Some(s)
  {
    s := 0;
    while s < |segs| && !Accepts(segs[s].window, offset)
      invariant s <= |segs|
      invariant Locate(Windows(segs), offset, 0) == Locate(Windows(segs), offset, s)
    {
      s := s + 1;
    }
  }

  /** One relative entry: its site, or a refusal that writes nothing. */
  method ApplyOne(segs: seq<Segment>, bias: nat, r: Rela) returns (ok: bool)
    requires Backed(segs) && r.Relative() && SiteInside(Windows(segs), r.offset)
    modifies Hosts(segs)
    ensures !ok ==> Contents(segs) == old(Contents(segs))
    ensures match Locate(Windows(segs), r.offset, 0)
            case None => !ok
            case Some(s) => ok && Contents(segs) == Store(old(Contents(segs)), s, r.offset - segs[s].window.vaddr, Value(bias, r.addend))
  {
    hide Le, Locate;
    var s := FindSegment(segs, r.offset);
    if s == |segs| { return false; }
    ghost var before := Contents(segs);
    var at, v := r.offset - segs[s].window.vaddr, Value(bias, r.addend);
    StoreBytes(segs[s].host, at, v);
    forall t | 0 <= t < |segs| ensures Contents(segs)[t] == Store(before, s, at, v)[t] {
      assert t != s ==> segs[t].host != segs[s].host;
    }
    return true;
  }

  /** One entry of the pass on values. */
  lemma PassStep(ws: seq<Window>, mem: Memory, table: seq<Rela>, bias: nat, i: nat, applied: nat)
    requires Layout(ws, mem, table) && i < |table|
    ensures var r, p := table[i], Pass(ws, mem, table, bias, i, applied);
            && (!r.Relative() ==> p == Pass(ws, mem, table, bias, i + 1, applied))
            && (r.Relative() ==> SiteInside(ws, r.offset))
            && (r.Relative() && Locate(ws, r.offset, 0).None? ==> p == Outcome(mem, INVALID_ARG))
            && (r.Relative() && Locate(ws, r.offset, 0).Some? ==>
                  var s := Locate(ws, r.offset, 0).value;
                  var mem' := Store(mem, s, r.offset - ws[s].vaddr, Value(bias, r.addend));
                  Fits(ws, mem') && p == Pass(ws, mem', table, bias, i + 1, applied + 1))
  {
    hide Le, Locate;
  }

  /** The loop over the table. */
  method ApplyAll(segs: seq<Segment>, bias: nat, rela: seq<byte>, ent: nat) returns (code: int)
    requires Backed(segs) && ent >= RELA_BYTES && Contained(Windows(segs), Table(rela, ent))
    modifies Hosts(segs)
    ensures Outcome(Contents(segs), code) == Relocate(Windows(segs), old(Contents(segs)), Table(rela, ent), bias)
  {
    hide Le, Locate, Store, FromLe, Pass, Entry, SiteInside, Contained;
    var n := |rela| / ent;
    ghost var ws, table := Windows(segs), Table(rela, ent);
    var applied := 0;
    for i := 0 to n
      invariant applied >= 0 && Fits(ws, Contents(segs))
      invariant Pass(ws, Contents(segs), table, bias, i, applied) == Relocate(ws, old(Contents(segs)), table, bias)
    {
      var r := Entry(rela, ent, i);
      assert table[i] == r;
      PassStep(ws, Contents(segs), table, bias, i, applied);
      if r.Relative() {
        var ok := ApplyOne(segs, bias, r);
        if !ok { return INVALID_ARG; }
        applied := applied + 1;
      }
    }
    PassEnd(ws, Contents(segs), table, bias, applied);
    return applied;
  }

  lemma PassEnd(ws: seq<Window>, mem: Memory, table: seq<Rela>, bias: nat, applied: nat)
    requires Layout(ws, mem, table)
    ensures Pass(ws, mem, table, bias, |table|, applied) == Outcome(mem, applied)
  {}

  /** Entry `k` of the raw table, if it is a relative relocation some segment accepts and no later one
      overwrites: its site holds bias plus addend, modulo 2^64. */
  ghost predicate SiteDone(ws: seq<Window>, mem: Memory, rela: seq<byte>, ent: nat, bias: nat, k: nat)
    requires ent >= RELA_BYTES && k < |rela| / ent
  {
    EntryInside(|rela|, ent, k);
    var offset, info := FromLe(rela[k * ent..k * ent + 8]), FromLe(rela[k * ent + 8..k * ent + 16]);
    var addend := FromLe(rela[k * ent + 16..k * ent + 24]);
    info % 0x1_0000_0000 == 8 && Locate(ws, offset, 0).Some? ==>
      var s := Locate(ws, offset, 0).value;
      var at := offset - ws[s].vaddr;
      Settled(ws, Table(rela, ent), k + 1, s, at) ==>
        s < |mem| && at + 8 <= |mem[s]| && FromLe(mem[s][at..at + 8]) == (bias + addend) % U64
  }

  lemma SitesDone(ws: seq<Window>, mem: Memory, rela: seq<byte>, ent: nat, bias: nat)
    requires ent >= RELA_BYTES && Layout(ws, mem, Table(rela, ent)) && Relocate(ws, mem, Table(rela, ent), bias).code >= 0
    ensures forall k: nat :: k < |rela| / ent ==> SiteDone(ws, Relocate(ws, mem, Table(rela, ent), bias).mem, rela, ent, bias, k)
  {
    hide Pass, FromLe, Locate, Settled;
    var table := Table(rela, ent);
    forall k: nat | k < |rela| / ent ensures SiteDone(ws, Relocate(ws, mem, table, bias).mem, rela, ent, bias, k) {
      var r := table[k];
      if r.info % 0x1_0000_0000 == 8 && Locate(ws, r.offset, 0).Some? {
        var s := Locate(ws, r.offset, 0).value;
        if Settled(ws, table, k + 1, s, r.offset - ws[s].vaddr) { SiteHolds(ws, mem, table, bias, 0, 0, k); }
      }
    }
  }

  /** The pass in place: it refuses a missing or short-entried table and changes nothing, and otherwise
      leaves the memory and the answer of `Relocate`; after a success every site not overwritten later
      holds bias plus addend. */
  method ApplyRelative(segs: seq<Segment>, bias: nat, rela: Option<seq<byte>>, ent: nat) returns (code: int)
    requires Backed(segs)
    requires rela.Some? && ent >= RELA_BYTES ==> Contained(Windows(segs), Table(rela.value, ent))
    modifies Hosts(segs)
    ensures segs == [] || rela.None? || ent < RELA_BYTES ==> code == INVALID_ARG && Contents(segs) == old(Contents(segs))
    ensures segs != [] && rela.Some? && ent >= RELA_BYTES ==>
              Outcome(Contents(segs), code) == Relocate(Windows(segs), old(Contents(segs)), Table(rela.value, ent), bias)
    ensures code >= 0 ==> rela.Some? && ent >= RELA_BYTES
    ensures code >= 0 ==> forall k: nat :: k < |rela.value| / ent ==>
              SiteDone(Windows(segs), Contents(segs), rela.value, ent, bias, k)
  {
    hide SiteDone, Pass;
    if segs == [] || rela.None? || ent < RELA_BYTES { return INVALID_ARG; }
    ghost var before := Contents(segs);
    code := ApplyAll(segs, bias, rela.value, ent);
    if code >= 0 { SitesDone(Windows(segs), before, rela.value, ent, bias); }
  }

  /** One entry of the dynamic section. */
  datatype Dyn = Dyn(tag: nat, val: nat)

  /** How much of the section is read: up to the terminator, and never past the bound. */
  function Extent(dyn: seq<Dyn>, i: nat): (n: nat)
    requires i <= |dyn|
    ensures i <= n <= |dyn| && (n < |dyn| ==> dyn[n].tag == DT_NULL)
    ensures forall k :: i <= k < n ==> dyn[k].tag != DT_NULL
    decreases |dyn| - i
  {
    if i == |dyn| || dyn[i].tag == DT_NULL then i else Extent(dyn, i + 1)
  }

  /** `v` is what the last entry with this tag says, or `otherwise` if there is none. */
  ghost predicate Says(dyn: seq<Dyn>, n: nat, tag: nat, otherwise: nat, v: nat)
    requires n <= |dyn|
  {
    if exists k :: LastWith(dyn, n, tag, k) then exists k :: LastWith(dyn, n, tag, k) && dyn[k].val == v
    else v == otherwise && forall k :: 0 <= k < n ==> dyn[k].tag != tag
  }

  ghost predicate LastWith(dyn: seq<Dyn>, n: nat, tag: nat, k: int)
    requires n <= |dyn|
  {
    0 <= k < n && dyn[k].tag == tag && forall j :: k < j < n ==> dyn[j].tag != tag
  }

  lemma SaysNext(dyn: seq<Dyn>, n: nat, tag: nat, otherwise: nat, v: nat)
    requires n < |dyn| && Says(dyn, n, tag, otherwise, v)
    ensures Says(dyn, n + 1, tag, otherwise, if dyn[n].tag == tag then dyn[n].val else v)
  {
    if dyn[n].tag == tag {
      assert LastWith(dyn, n + 1, tag, n);
    } else {
      forall k: int ensures LastWith(dyn, n + 1, tag, k) == LastWith(dyn, n, tag, k) {}
    }
  }

  /** The answer is a table exactly when there is a size and entries are long enough, and then it
      is what the last of each tag before the terminator says. */
  method FindRela(dyn: seq<Dyn>) returns (found: bool, vaddr: nat, bytes: nat, ent: nat)
    ensures Says(dyn, Extent(dyn, 0), DT_RELA, 0, vaddr)
    ensures Says(dyn, Extent(dyn, 0), DT_RELASZ, 0, bytes)
    ensures Says(dyn, Extent(dyn, 0), DT_RELAENT, RELA_BYTES, ent)
    ensures found <==> bytes != 0 && ent >= RELA_BYTES
  {
    hide Says;
    vaddr, bytes, ent := 0, 0, RELA_BYTES;
    SaysNothing(dyn, DT_RELA, 0);
    SaysNothing(dyn, DT_RELASZ, 0);
    SaysNothing(dyn, DT_RELAENT, RELA_BYTES);
    var i := 0;
    while i < |dyn| && dyn[i].tag != DT_NULL
      invariant i <= |dyn| && Extent(dyn, i) == Extent(dyn, 0)
      invariant Says(dyn, i, DT_RELA, 0, vaddr)
      invariant Says(dyn, i, DT_RELASZ, 0, bytes)
      invariant Says(dyn, i, DT_RELAENT, RELA_BYTES, ent)
    {
      SaysNext(dyn, i, DT_RELA, 0, vaddr);
      SaysNext(dyn, i, DT_RELASZ, 0, bytes);
      SaysNext(dyn, i, DT_RELAENT, RELA_BYTES, ent);
      if dyn[i].tag == DT_RELA { vaddr := dyn[i].val; }
      else if dyn[i].tag == DT_RELASZ { bytes := dyn[i].val; }
      else if dyn[i].tag == DT_RELAENT { ent := dyn[i].val; }
      i := i + 1;
    }
    found := bytes != 0 && ent >= RELA_BYTES;
  }

  lemma SaysNothing(dyn: seq<Dyn>, tag: nat, otherwise: nat)
    ensures Says(dyn, 0, tag, otherwise, otherwise)
  {}
}
