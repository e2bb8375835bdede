/** A program's memory: a break, an `mmap` cursor, and a table of the mappings behind them, over a
    kernel that may refuse any retype, map or unmap.
 */
module ProgMem {

  const U64: nat := 0x1_0000_0000_0000_0000
  const U32: nat := 0x1_0000_0000
  const MAX64: nat := U64 - 1
  const PAGE: nat := 4096
  const CHUNK_MIN: nat := 65536
  const MAPS: nat := 32
  const PROT_RW: nat := 1

  const HEAP_OFF: nat := 0x6000_0000
  const HEAP_END_OFF: nat := 0x7000_0000
  const MMAP_OFF: nat := 0x7000_0000
  const STACK_OFF: nat := 0x7F_FFFF_7000

  const INVALID_ARG := -1
  const NOT_FOUND := -3
  const NOT_SUPPORTED := -11

  /** One mapping the program made. */
  datatype Rec = Rec(vaddr: nat, bytes: nat, slot: nat, prot: nat, heap: bool) {
    function End(): nat { vaddr + bytes }
    predicate Covers(a: int) { vaddr <= a < End() }
  }

  predicate Apart(r: Rec, s: Rec) { r.End() <= s.vaddr || s.End() <= r.vaddr }

  predicate Aligned(n: int) { n % PAGE == 0 }

  // ── the arithmetic ─────────────────────────────────────────────────────────

  /** Rounds up to whole pages, and answers 0 rather than wrapping. */
  function Pages(bytes: nat): (n: nat)
    ensures Aligned(n)
    ensures bytes + PAGE - 1 <= MAX64 ==> bytes <= n < bytes + PAGE
    ensures n <= MAX64
    ensures bytes + PAGE - 1 > MAX64 ==> n == 0
  {
    if bytes > MAX64 - (PAGE - 1) then 0 else (bytes + PAGE - 1) / PAGE * PAGE
  }

  lemma AlignedDifference(a: int, b: int)
    requires Aligned(a) && Aligned(b)
    ensures Aligned(a - b) && Aligned(a + b) && Aligned(CHUNK_MIN)
  {}

  /** The least whole number of pages that holds `bytes`. */
  lemma PagesLeast(bytes: nat, k: nat)
    requires Aligned(k) && bytes <= k <= MAX64 - (PAGE - 1)
    ensures Pages(bytes) <= k
  {}

  // ── tilings ────────────────────────────────────────────────────────────────

  /** The heap records cover [lo, hi), and nothing outside it. */
  ghost predicate Tiles(recs: set<Rec>, lo: nat, hi: nat) {
    && (forall r :: r in recs && r.heap ==> lo <= r.vaddr && r.End() <= hi)
    && (forall a :: lo <= a < hi ==> Covered(recs, a))
  }

  ghost predicate Covered(recs: set<Rec>, a: int) {
    exists r :: r in recs && r.heap && r.Covers(a)
  }

  /** Every record is whole pages, slots are distinct, and no two records overlap. */
  ghost predicate Sound(recs: set<Rec>) {
    && (forall r :: r in recs ==> Aligned(r.vaddr) && Aligned(r.bytes) && 0 < r.bytes)
    && (forall r, s :: r in recs && s in recs && r != s ==> r.slot != s.slot && Apart(r, s))
  }

  /** Ranges that overlap nowhere and lie between two addresses. */
  ghost predicate Between(ranges: seq<Rec>, lo: nat, hi: nat) {
    && (forall i, j :: 0 <= i < j < |ranges| ==> Apart(ranges[i], ranges[j]))
    && (forall i :: 0 <= i < |ranges| ==> lo <= ranges[i].vaddr && ranges[i].End() <= hi)
  }

  /** A writable heap record from one address to another, in the slot that was next. */
  predicate HeapChunk(e: Rec, lo: nat, hi: nat, slot: nat) {
    e.heap && e.vaddr == lo && e.End() == hi && e.slot == slot && e.prot == PROT_RW
  }

  lemma BetweenNext(ranges: seq<Rec>, lo: nat, hi: nat, e: Rec)
    requires Between(ranges, lo, hi) && lo <= hi == e.vaddr
    ensures Between(ranges + [e], lo, e.End())
  {}

  lemma SoundAdd(recs: set<Rec>, e: Rec)
    requires Sound(recs) && (forall r :: r in recs ==> r.slot != e.slot && Apart(r, e))
    requires Aligned(e.vaddr) && Aligned(e.bytes) && 0 < e.bytes
    ensures Sound(recs + {e})
  {}

  lemma SoundSubset(recs: set<Rec>, recs': set<Rec>)
    requires Sound(recs) && recs' <= recs
    ensures Sound(recs')
  {}

  lemma TilesGrow(recs: set<Rec>, lo: nat, hi: nat, e: Rec)
    requires Tiles(recs, lo, hi) && lo <= hi && e.heap && e.vaddr == hi
    ensures Tiles(recs + {e}, lo, e.End())
  {
    forall a | lo <= a < e.End() ensures Covered(recs + {e}, a) {
      if a < hi {
        assert Covered(recs, a);
        var r :| r in recs && r.heap && r.Covers(a);
        assert r in recs + {e};
      } else {
        assert e in recs + {e} && e.Covers(a);
      }
    }
  }

  lemma TilesOther(recs: set<Rec>, recs': set<Rec>, lo: nat, hi: nat)
    requires Tiles(recs, lo, hi) && forall r: Rec :: r.heap ==> (r in recs <==> r in recs')
    ensures Tiles(recs', lo, hi)
  {
    forall a | lo <= a < hi ensures Covered(recs', a) {
      assert Covered(recs, a);
      var r :| r in recs && r.heap && r.Covers(a);
      assert r in recs';
    }
  }

  /** Dropping every heap record at or above `cut` leaves a tiling up to the lowest of them. */
  lemma TilesShrink(recs: set<Rec>, kept: set<Rec>, lo: nat, hi: nat, cut: nat, top: nat)
    requires Tiles(recs, lo, hi) && Sound(recs)
    requires kept == set r | r in recs && !(r.heap && cut <= r.vaddr)
    requires top <= hi && forall r :: r in recs && r !in kept ==> top <= r.vaddr
    requires top == hi || exists r :: r in recs && r !in kept && r.vaddr == top
    ensures Tiles(kept, lo, top)
  {
    forall a | lo <= a < top ensures Covered(kept, a) {
      assert Covered(recs, a);
      var r :| r in recs && r.heap && r.Covers(a);
      assert r in kept;
    }
    forall r | r in kept && r.heap ensures r.End() <= top {
      if top < hi {
        var d :| d in recs && d !in kept && d.vaddr == top;
        assert Apart(r, d);
      }
    }
  }

  // ── geometric growth ───────────────────────────────────────────────────────

  /** A heap record at least as long as everything below it, or trimmed to the end of the region. */
  ghost predicate Grown(r: Rec, lo: nat, end: nat) {
    (CHUNK_MIN <= r.bytes && r.vaddr - lo <= r.bytes) || r.End() == end
  }

  function HeapOf(recs: set<Rec>): set<Rec> { set r | r in recs && r.heap }

  function Pow2(n: nat): (p: nat)
    ensures p > 0
  {
    if n == 0 then 1 else 2 * Pow2(n - 1)
  }

  /** The topmost record of a tiling, and the tiling below it. */
  lemma TopRecord(recs: set<Rec>, lo: nat, hi: nat) returns (r: Rec)
    requires Sound(recs) && Tiles(recs, lo, hi) && lo < hi
    ensures r in recs && r.heap && r.End() == hi && lo <= r.vaddr && Tiles(recs - {r}, lo, r.vaddr)
  {
    assert Covered(recs, hi - 1);
    r :| r in recs && r.heap && r.Covers(hi - 1);
    forall s | s in recs - {r} && s.heap ensures s.End() <= r.vaddr { assert Apart(r, s); }
    forall a | lo <= a < r.vaddr ensures Covered(recs - {r}, a) {
      assert Covered(recs, a);
      var s :| s in recs && s.heap && s.Covers(a);
      assert s in recs - {r};
    }
  }

  /** Nothing can tile an empty range. */
  lemma NoHeap(recs: set<Rec>, lo: nat)
    requires Sound(recs) && Tiles(recs, lo, lo)
    ensures HeapOf(recs) == {}
  {
    forall r ensures r !in HeapOf(recs) {}
  }

  /** Doubling: `n` records, each as long as everything below it, need 2^(n-1) minimal chunks. */
  lemma {:induction false} DoublingCosts(recs: set<Rec>, lo: nat, hi: nat)
    requires Sound(recs) && Tiles(recs, lo, hi) && lo < hi
    requires forall r :: r in recs && r.heap ==> CHUNK_MIN <= r.bytes && r.vaddr - lo <= r.bytes
    ensures 0 < |HeapOf(recs)| && CHUNK_MIN * Pow2(|HeapOf(recs)| - 1) <= hi - lo
    decreases |recs|
  {
    var r := TopRecord(recs, lo, hi);
    assert HeapOf(recs) == HeapOf(recs - {r}) + {r};
    SoundSubset(recs, recs - {r});
    if lo < r.vaddr {
      DoublingCosts(recs - {r}, lo, r.vaddr);
    } else {
      NoHeap(recs - {r}, lo);
    }
  }

  lemma {:induction false} Pow2Monotone(m: nat, n: nat)
    requires m <= n
    ensures Pow2(m) <= Pow2(n)
  {
    if m < n { Pow2Monotone(m, n - 1); }
  }

  /** So the heap of the program contract, however it was grown and shrunk, never takes more than
      fourteen of the thirty-two entries of the table. */
  lemma HeapFitsTable(recs: set<Rec>, lo: nat, hi: nat, end: nat)
    requires Sound(recs) && Tiles(recs, lo, hi) && lo <= hi <= end && end - lo <= HEAP_END_OFF - HEAP_OFF
    requires forall r :: r in recs && r.heap ==> Grown(r, lo, end)
    ensures |HeapOf(recs)| <= 14
  {
    if lo == hi {
      NoHeap(recs, lo);
    } else if hi == end {
      var r := TopRecord(recs, lo, hi);
      var rest := recs - {r};
      SoundSubset(recs, rest);
      assert HeapOf(recs) == HeapOf(rest) + {r};
      AtMostThirteen(rest, lo, r.vaddr, end);
    } else {
      AtMostThirteen(recs, lo, hi, end);
    }
  }

  lemma AtMostThirteen(recs: set<Rec>, lo: nat, hi: nat, end: nat)
    requires Sound(recs) && Tiles(recs, lo, hi) && lo <= hi < end && end - lo <= HEAP_END_OFF - HEAP_OFF
    requires forall r :: r in recs && r.heap ==> Grown(r, lo, end)
    ensures |HeapOf(recs)| <= 13
  {
    if lo < hi {
      DoublingCosts(recs, lo, hi);
      assert Pow2(13) == 8192;
      if |HeapOf(recs)| > 13 { Pow2Monotone(13, |HeapOf(recs)| - 1); }
    } else {
      NoHeap(recs, lo);
    }
  }

  // ── the kernel, as far as a program can see it ─────────────────────────────

  /** A frame mapped at an address. */
  datatype Page = Page(slot: nat, vaddr: nat, bytes: nat, prot: nat)

  /** Frames by slot and the pages they are mapped at. Every request may be refused, and a refused
      request changes nothing. Deleting a frame's capability takes its pages with it. */
  class Kernel {
    var frames: map<nat, nat>
    var pages: set<Page>
    /** How many requests it has refused. */
    ghost var refusals: nat

    constructor ()
      ensures frames == map[] && pages == {} && refusals == 0
    {
      frames, pages, refusals := map[], {}, 0;
    }

    method Retype(slot: nat, bytes: nat) returns (ok: bool)
      modifies this
      ensures pages == old(pages) && frames == if ok then old(frames)[slot := bytes] else old(frames)
      ensures refusals == if ok then old(refusals) else old(refusals) + 1
    {
      ok := *;
      if ok { frames := frames[slot := bytes]; } else { refusals := refusals + 1; }
    }

    method Map(slot: nat, vaddr: nat, bytes: nat, prot: nat) returns (ok: bool)
      modifies this
      ensures frames == old(frames)
      ensures pages == if ok then old(pages) + {Page(slot, vaddr, bytes, prot)} else old(pages)
      ensures refusals == if ok then old(refusals) else old(refusals) + 1
    {
      ok := *;
      if ok { pages := pages + {Page(slot, vaddr, bytes, prot)}; } else { refusals := refusals + 1; }
    }

    method Unmap(slot: nat, vaddr: nat) returns (ok: bool)
      modifies this
      ensures frames == old(frames)
      ensures pages == if ok then set p | p in old(pages) && !(p.slot == slot && p.vaddr == vaddr) else old(pages)
      ensures refusals == if ok then old(refusals) else old(refusals) + 1
    {
      ok := *;
      if ok { pages := set p | p in pages && !(p.slot == slot && p.vaddr == vaddr); } else { refusals := refusals + 1; }
    }

    method Delete(slot: nat)
      modifies this
      ensures frames == old(frames) - {slot} && pages == (set p | p in old(pages) && p.slot != slot) && refusals == old(refusals)
    {
      frames := frames - {slot};
      pages := set p | p in pages && p.slot != slot;
    }
  }

  /** The pages a set of records stands for. */
  function PagesOf(recs: set<Rec>): set<Page> {
    set r | r in recs :: Page(r.slot, r.vaddr, r.bytes, r.prot)
  }

  function FramesOf(recs: set<Rec>): set<nat> { set r | r in recs :: r.slot }

  class ProgramMemory {
    const kernel: Kernel
    var slotNext: nat
    var slotEnd: nat
    const brkBase: nat
    var brkCur: nat
    const brkEnd: nat
    var heapTop: nat
    const mmapBase: nat
    var mmapCur: nat
    const mmapEnd: nat
    var nmaps: nat
    const maps: array<Rec>
    /** Every range `mmap` has ever returned. */
    ghost var handed: seq<Rec>

    /** The records in use. */
    ghost function Recs(): set<Rec>
      reads this, maps
    {
      if nmaps <= maps.Length then set r | r in maps[..nmaps] else {}
    }

    ghost predicate Bounds()
      reads this
    {
      && Aligned(brkBase) && Aligned(brkEnd) && Aligned(mmapEnd) && Aligned(heapTop) && Aligned(mmapCur)
      && 0 < brkBase <= brkCur <= heapTop <= brkEnd <= mmapBase <= mmapCur <= mmapEnd <= MAX64 - PAGE
      && brkEnd - brkBase <= HEAP_END_OFF - HEAP_OFF
    }

    /** The table repeats nothing, its records are sound and their slots come from the pool. */
    ghost predicate Core()
      reads this, maps
    {
      && maps.Length == MAPS && nmaps <= MAPS
      && slotNext <= slotEnd + 1 && slotEnd + 1 < U32
      && (forall i, j :: 0 <= i < j < nmaps ==> maps[i] != maps[j])
      && Sound(Recs())
      && (forall r :: r in Recs() ==> r.slot < slotNext)
    }

    /** Heap records tile the heap; the others are below the mmap cursor. */
    ghost predicate Table()
      reads this, maps
    {
      && Core() && Bounds()
      && Tiles(Recs(), brkBase, heapTop)
      && (forall r :: r in Recs() && r.heap ==> Grown(r, brkBase, brkEnd))
      && (forall r :: r in Recs() && !r.heap ==> mmapBase <= r.vaddr && r.End() <= mmapCur)
    }

    /** No range `mmap` ever returned overlaps another, or anything still to be handed out. */
    ghost predicate HandedOut()
      reads this
    {
      Between(handed, mmapBase, mmapCur)
    }

    /** The kernel holds exactly the frames and pages the table records. */
    ghost predicate Backed()
      reads this, maps, kernel
    {
      && kernel.frames.Keys == FramesOf(Recs())
      && kernel.pages == PagesOf(Recs())
    }

    ghost predicate Valid()
      reads this, maps, kernel
    {
      Table() && HandedOut() && Backed()
    }

    /** Lays out the regions of the program contract above a private base. */
    constructor (k: Kernel, privateBase: nat, slotLo: nat, slotHi: nat)
      requires Aligned(privateBase) && privateBase + STACK_OFF < MAX64 - PAGE
      requires slotLo <= slotHi + 1 && slotHi + 1 < U32
      requires k.frames == map[] && k.pages == {}
      ensures Valid() && Recs() == {} && handed == []
      ensures brkCur == heapTop == brkBase == privateBase + HEAP_OFF && brkEnd == privateBase + HEAP_END_OFF
      ensures mmapCur == privateBase + MMAP_OFF && mmapEnd == privateBase + STACK_OFF - PAGE
      ensures kernel == k && fresh(maps)
    {
      kernel := k;
      slotNext, slotEnd := slotLo, slotHi;
      brkBase, brkCur, heapTop := privateBase + HEAP_OFF, privateBase + HEAP_OFF, privateBase + HEAP_OFF;
      brkEnd := privateBase + HEAP_END_OFF;
      mmapBase, mmapCur := privateBase + MMAP_OFF, privateBase + MMAP_OFF;
      mmapEnd := privateBase + STACK_OFF - PAGE;
      nmaps := 0;
      maps := new Rec[MAPS](_ => Rec(0, 0, 0, 0, false));
      handed := [];
    }

    // ── the plan ─────────────────────────────────────────────────────────────

    /** Reserves address space at one of the two cursors. */
    method Reserve(bytes: nat, heap: bool) returns (ok: bool, va: nat)
      requires Bounds()
      modifies this`heapTop, this`mmapCur
      ensures var cur, end, n := if heap then old(heapTop) else old(mmapCur), if heap then brkEnd else mmapEnd, Pages(bytes);
              && ok == (0 < n <= end - cur)
              && (ok ==> va == cur)
              && heapTop == (if ok && heap then cur + n else old(heapTop))
              && mmapCur == (if ok && !heap then cur + n else old(mmapCur))
    {
      va := 0;
      var cur, end := if heap then heapTop else mmapCur, if heap then brkEnd else mmapEnd;
      var n := Pages(bytes);
      if n == 0 { return false, 0; }
      if cur > end || n > end - cur { return false, 0; }
      va := cur;
      if heap { heapTop := cur + n; } else { mmapCur := cur + n; }
      return true, va;
    }

    /** How much the heap grows: at least what is needed, at least doubling unless the region ends
        first, never past the region; and 0 exactly when what is needed does not fit. */
    method Chunk(bytes: nat) returns (c: nat)
      requires Bounds() && bytes <= MAX64
      ensures c == 0 <==> Pages(bytes) == 0 || Pages(bytes) > brkEnd - heapTop
      ensures c != 0 ==> Pages(bytes) <= c <= brkEnd - heapTop && Aligned(c)
      ensures c != 0 && c != brkEnd - heapTop ==> CHUNK_MIN <= c && heapTop - brkBase <= c
    {
      hide Pages, Aligned;
      var need := Pages(bytes);
      AlignedDifference(heapTop, brkBase);
      AlignedDifference(brkEnd, heapTop);
      if need == 0 { return 0; }
      var have := heapTop - brkBase;
      var want := if have > CHUNK_MIN then have else CHUNK_MIN;
      if want < need { want := need; }
      if heapTop <= brkEnd && want > brkEnd - heapTop { want := brkEnd - heapTop; }
      if want < need { return 0; }
      return want;
    }

    method TakeSlot() returns (ok: bool, slot: nat)
      requires slotNext <= slotEnd + 1 && slotEnd + 1 < U32
      modifies this`slotNext
      ensures ok == (old(slotNext) <= slotEnd) && slotNext == (if ok then old(slotNext) + 1 else old(slotNext))
      ensures ok ==> slot == old(slotNext)
    {
      slot := 0;
      if slotNext > slotEnd { return false, 0; }
      slot := slotNext;
      slotNext := (slotNext + 1) % U32;
      return true, slot;
    }

    /** The record that contains [vaddr, vaddr + bytes), or -1. */
    method Find(vaddr: nat, bytes: nat) returns (idx: int)
      requires Core() && vaddr <= MAX64 && bytes <= MAX64
      ensures -1 <= idx < nmaps
      ensures idx >= 0 ==> 0 < bytes && maps[idx].vaddr <= vaddr && vaddr + bytes <= maps[idx].End()
      ensures bytes == 0 || vaddr + bytes > MAX64 ==> idx < 0
      ensures idx < 0 && 0 < bytes && vaddr + bytes <= MAX64 ==>
                forall r :: r in Recs() ==> !(r.vaddr <= vaddr && vaddr + bytes <= r.End())
    {
      hide Sound, Aligned, Apart;
      if bytes == 0 { return -1; }
      if vaddr > MAX64 - bytes { return -1; }
      for i := 0 to nmaps
        invariant forall j :: 0 <= j < i ==> !(maps[j].vaddr <= vaddr && vaddr + bytes <= maps[j].End())
      {
        var e := maps[i];
        if vaddr < e.vaddr { continue; }
        if vaddr - e.vaddr > e.bytes { continue; }
        if bytes > e.bytes - (vaddr - e.vaddr) { continue; }
        return i;
      }
      return -1;
    }

    /** A record that overlaps nothing in the table and has its own slot. */
    ghost predicate Fitting(e: Rec)
      reads this, maps
    {
      && (forall r :: r in Recs() ==> r.slot != e.slot && Apart(r, e))
      && Aligned(e.vaddr) && Aligned(e.bytes) && 0 < e.bytes && e.slot < slotNext
    }

    /** Appends any record while there is room; one that fits keeps the table sound. */
    method Record(e: Rec) returns (ok: bool)
      requires maps.Length == MAPS && nmaps <= MAPS
      modifies this`nmaps, maps
      ensures ok == (old(nmaps) < MAPS) && nmaps == (if ok then old(nmaps) + 1 else old(nmaps))
      ensures maps[..nmaps] == old(maps[..nmaps]) + if ok then [e] else []
      ensures old(Core() && Fitting(e)) ==> Core() && Recs() == if ok then old(Recs()) + {e} else old(Recs())
    {
      hide Apart, Aligned, Sound;
      if nmaps >= MAPS { return false; }
      ghost var before := Recs();
      if Core() && Fitting(e) {
        SoundAdd(before, e);
        forall i | 0 <= i < nmaps ensures maps[i] != e { assert maps[i] in before; }
      }
      ghost var s := maps[..nmaps];
      maps[nmaps] := e;
      nmaps := nmaps + 1;
      assert maps[..nmaps] == s + [e];
      assert Recs() == before + {e};
      return true;
    }

    /** The last record moves into the hole; an index that is not in use is ignored. */
    method Forget(index: int)
      requires maps.Length == MAPS && nmaps <= MAPS
      modifies this`nmaps, maps
      ensures !(0 <= index < old(nmaps)) ==> nmaps == old(nmaps) && maps[..] == old(maps[..])
      ensures 0 <= index < old(nmaps) ==>
                nmaps == old(nmaps) - 1 && maps[..nmaps] == old(maps[..nmaps][index := maps[nmaps - 1]])[..nmaps]
      ensures old(Core()) && 0 <= index < old(nmaps) ==> Core() && Recs() == old(Recs()) - {old(maps[index])}
    {
      hide Sound;
      if index < 0 || index >= nmaps { return; }
      ghost var before, gone, core := Recs(), maps[index], Core();
      ghost var s := maps[..nmaps];
      if core {
        SwapRemove(s, index);
        SoundSubset(before, before - {gone});
      }
      maps[index] := maps[nmaps - 1];
      nmaps := nmaps - 1;
      assert maps[..nmaps] == s[index := s[|s| - 1]][..|s| - 1];
      if core {
        assert Recs() == before - {gone};
        assert forall i, j :: 0 <= i < j < nmaps ==> maps[..nmaps][i] != maps[..nmaps][j];
      }
    }

    /** However the heap was grown and shrunk, it takes at most fourteen entries of the table. */
    lemma HeapRecordsFit()
      requires Valid()
      ensures |HeapOf(Recs())| <= 14
    {
      HeapFitsTable(Recs(), brkBase, heapTop, brkEnd);
    }

    // ── the doing ────────────────────────────────────────────────────────────

    /** A frame in a slot nobody uses, mapped; or the kernel as it was. */
    method Acquire(slot: nat, vaddr: nat, bytes: nat, prot: nat) returns (ok: bool)
      requires slot !in kernel.frames && forall p :: p in kernel.pages ==> p.slot != slot
      modifies kernel
      ensures kernel.refusals >= old(kernel.refusals) && (ok <==> kernel.refusals == old(kernel.refusals))
      ensures kernel.frames.Keys == if ok then old(kernel.frames.Keys) + {slot} else old(kernel.frames.Keys)
      ensures kernel.pages == if ok then old(kernel.pages) + {Page(slot, vaddr, bytes, prot)} else old(kernel.pages)
    {
      var retyped := kernel.Retype(slot, bytes);
      if !retyped { return false; }
      ok := kernel.Map(slot, vaddr, bytes, prot);
      if !ok { kernel.Delete(slot); }
    }

    /** One frame, retyped and mapped and recorded; or nothing left behind but a used-up slot number. */
    method Add(vaddr: nat, bytes: nat, prot: nat, heap: bool) returns (ok: bool)
      requires Core() && Backed() && Aligned(vaddr) && Aligned(bytes) && 0 < bytes
      requires forall r :: r in Recs() ==> Apart(r, Rec(vaddr, bytes, 0, prot, heap))
      modifies this`slotNext, this`nmaps, maps, kernel
      ensures Core() && Backed()
      ensures Recs() == if ok then old(Recs()) + {Rec(vaddr, bytes, old(slotNext), prot, heap)} else old(Recs())
      ensures !ok ==> kernel.frames.Keys == old(kernel.frames.Keys) && kernel.pages == old(kernel.pages)
      ensures kernel.refusals >= old(kernel.refusals)
      ensures ok <==> old(slotNext) <= slotEnd && old(nmaps) < MAPS && kernel.refusals == old(kernel.refusals)
      ensures slotNext == if old(slotNext) <= slotEnd then old(slotNext) + 1 else old(slotNext)
    {
      hide Sound, Aligned, PagesOf, FramesOf;
      var taken, slot := TakeSlot();
      if !taken { return false; }
      ghost var recs := Recs();
      var e := Rec(vaddr, bytes, slot, prot, heap);
      FreshSlot(recs, slot);
      AddPages(recs, e);
      var acquired := Acquire(slot, vaddr, bytes, prot);
      if !acquired { return false; }
      var recorded := Record(e);
      if !recorded {
        var _ := kernel.Unmap(slot, vaddr);
        kernel.Delete(slot);
        return false;
      }
      return true;
    }

    /** The inverse, by index. */
    method Drop(idx: nat)
      requires Core() && Backed() && idx < nmaps
      modifies this`nmaps, maps, kernel
      ensures Core() && Backed() && Recs() == old(Recs()) - {old(maps[idx])} && nmaps == old(nmaps) - 1
      ensures kernel.refusals >= old(kernel.refusals)
    {
      ghost var recs := Recs();
      var e := maps[idx];
      DropPages(recs, e);
      hide Sound;
      var _ := kernel.Unmap(e.slot, e.vaddr);
      kernel.Delete(e.slot);
      Forget(idx);
    }

    /** The first heap record at or above an address. */
    method FirstAbove(want: nat) returns (hit: int)
      requires nmaps <= maps.Length
      ensures -1 <= hit < nmaps
      ensures hit >= 0 ==> maps[hit].heap && want <= maps[hit].vaddr
      ensures hit < 0 ==> forall r :: r in Recs() ==> !(r.heap && want <= r.vaddr)
    {
      for i := 0 to nmaps
        invariant forall j :: 0 <= j < i ==> !(maps[j].heap && want <= maps[j].vaddr)
      {
        if !maps[i].heap { continue; }
        if maps[i].vaddr < want { continue; }
        return i;
      }
      return -1;
    }

    /** Maps frames ahead of the break until they cover it. One chunk is always enough. */
    method Grow(want: nat) returns (ok: bool)
      requires Valid() && want <= brkEnd
      modifies this`slotNext, this`nmaps, this`heapTop, this`mmapCur, maps, kernel
      ensures mmapCur == old(mmapCur) && Table() && Backed()
      ensures ok ==> want <= heapTop
      ensures kernel.refusals >= old(kernel.refusals)
      ensures ok <==> want <= old(heapTop)
                      || (old(slotNext) <= slotEnd && old(nmaps) < MAPS && kernel.refusals == old(kernel.refusals))
      ensures ok ==> (|| Recs() == old(Recs())
                      || exists e :: Recs() == old(Recs()) + {e} && HeapChunk(e, old(heapTop), heapTop, old(slotNext)))
      ensures !ok ==> heapTop == old(heapTop) && Recs() == old(Recs())
                      && kernel.frames.Keys == old(kernel.frames.Keys) && kernel.pages == old(kernel.pages)
      ensures old(slotNext) <= slotNext <= old(slotNext) + 1
    {
      hide Table, Backed, HandedOut;
      ghost var chunks := 0;
      while heapTop < want
        invariant Table() && Backed() && mmapCur == old(mmapCur) && kernel.refusals >= old(kernel.refusals)
        invariant chunks == 0 ==> heapTop == old(heapTop) && Recs() == old(Recs()) && slotNext == old(slotNext) && nmaps == old(nmaps)
                                  && kernel.frames == old(kernel.frames) && kernel.pages == old(kernel.pages)
                                  && kernel.refusals == old(kernel.refusals)
        invariant chunks == 1 ==> want <= heapTop && slotNext == old(slotNext) + 1
                                  && old(slotNext) <= slotEnd && old(nmaps) < MAPS && kernel.refusals == old(kernel.refusals)
                                  && exists e :: Recs() == old(Recs()) + {e} && HeapChunk(e, old(heapTop), heapTop, old(slotNext))
        invariant 0 <= chunks <= 1
        decreases 1 - chunks
      {
        ok := GrowOnce(want);
        if !ok { return false; }
        chunks := 1;
      }
      return true;
    }

    /** One chunk above the heap, long enough; or the heap as it was. */
    method GrowOnce(want: nat) returns (ok: bool)
      requires Table() && Backed() && heapTop < want <= brkEnd
      modifies this`slotNext, this`nmaps, this`heapTop, this`mmapCur, maps, kernel
      ensures mmapCur == old(mmapCur) && Table() && Backed() && kernel.refusals >= old(kernel.refusals)
      ensures ok <==> old(slotNext) <= slotEnd && old(nmaps) < MAPS && kernel.refusals == old(kernel.refusals)
      ensures ok ==> want <= heapTop && exists e :: Recs() == old(Recs()) + {e} && HeapChunk(e, old(heapTop), heapTop, old(slotNext))
      ensures !ok ==> heapTop == old(heapTop) && Recs() == old(Recs())
                      && kernel.frames.Keys == old(kernel.frames.Keys) && kernel.pages == old(kernel.pages)
      ensures slotNext == if old(slotNext) <= slotEnd then old(slotNext) + 1 else old(slotNext)
    {
      hide Sound, Aligned, Tiles, Pages, PagesOf, FramesOf;
      ghost var recs := Recs();
      PagesOfNeed(want - heapTop, heapTop, brkEnd);
      var chunk := Chunk(want - heapTop);
      if chunk == 0 { return false; }
      PagesOfNeed(chunk, heapTop, brkEnd);
      var reserved, va := Reserve(chunk, true);
      if !reserved { return false; }
      AboveHeap(recs, brkBase, va, va, chunk);
      AlignedDifference(va, chunk);
      ok := Add(va, chunk, PROT_RW, true);
      if !ok {
        heapTop := va;
        return;
      }
      ghost var e := Rec(va, chunk, old(slotNext), PROT_RW, true);
      TilesGrow(recs, brkBase, va, e);
      assert HeapChunk(e, va, heapTop, old(slotNext));
    }

    /** Releases the heap frames that end up entirely above an address, lowering the heap's top. */
    method Shrink(want: nat)
      requires Valid() && brkBase <= want <= brkCur
      modifies this`nmaps, this`heapTop, maps, kernel
      ensures Core() && Backed() && Tiles(Recs(), brkBase, heapTop) && kernel.refusals >= old(kernel.refusals)
      ensures Aligned(heapTop) && want <= heapTop <= old(heapTop)
      ensures Recs() == set r | r in old(Recs()) && !(r.heap && want <= r.vaddr)
    {
      hide Sound, Tiles, Aligned;
      ghost var recs, top := Recs(), heapTop;
      while true
        invariant Core() && Backed() && Recs() <= recs && want <= heapTop <= top && kernel.refusals >= old(kernel.refusals)
        invariant forall r :: r in recs && r !in Recs() ==> r.heap && want <= r.vaddr && heapTop <= r.vaddr
        invariant heapTop == top || exists r :: r in recs && r !in Recs() && r.vaddr == heapTop
        decreases nmaps
      {
        var hit := FirstAbove(want);
        if hit < 0 { break; }
        assert maps[hit] in Recs();
        ghost var gone := maps[hit];
        if maps[hit].vaddr < heapTop { heapTop := maps[hit].vaddr; }
        Drop(hit);
        assert gone in recs && gone !in Recs();
      }
      ghost var kept := set r | r in recs && !(r.heap && want <= r.vaddr);
      assert Recs() == kept;
      TilesShrink(recs, kept, brkBase, top, want, heapTop);
      TopAligned(recs, heapTop, top);
    }

    /** Moves the break by a signed amount. Answers the old break, or all ones. */
    method Brk(delta: int) returns (r: nat)
      requires Valid() && -0x8000_0000_0000_0000 < delta < 0x8000_0000_0000_0000
      modifies this`slotNext, this`nmaps, this`heapTop, this`mmapCur, this`brkCur, maps, kernel
      ensures Valid() && mmapCur == old(mmapCur)
      ensures r == MAX64 || r == old(brkCur)
      ensures kernel.refusals >= old(kernel.refusals)
      ensures r != MAX64 <==> brkBase <= old(brkCur) + delta <= brkEnd
                              && (old(brkCur) + delta <= old(heapTop)
                                  || (old(slotNext) <= slotEnd && old(nmaps) < MAPS && kernel.refusals == old(kernel.refusals)))
      ensures brkCur == if r == MAX64 then old(brkCur) else old(brkCur) + delta
      ensures r == MAX64 ==> heapTop == old(heapTop) && Recs() == old(Recs())
                             && kernel.frames.Keys == old(kernel.frames.Keys) && kernel.pages == old(kernel.pages)
                             && old(slotNext) <= slotNext <= old(slotNext) + 1
      ensures old(brkCur) + delta > brkEnd || old(brkCur) + delta < brkBase ==> r == MAX64 && slotNext == old(slotNext)
      ensures delta <= 0 && old(brkCur) + delta >= brkBase ==> r == old(brkCur) && slotNext == old(slotNext)
      ensures delta < 0 && r != MAX64 ==>
                Recs() == set e | e in old(Recs()) && !(e.heap && old(brkCur) + delta <= e.vaddr)
      ensures delta > 0 && r != MAX64 ==> (|| Recs() == old(Recs())
                      || exists e :: Recs() == old(Recs()) + {e} && HeapChunk(e, old(heapTop), heapTop, old(slotNext)))
    {
      hide Sound, Tiles, Aligned;
      if brkBase == 0 { return MAX64; }
      var cur := brkCur;
      if delta > 0 {
        var want := (cur + delta) % U64;
        if want < cur || want > brkEnd { return MAX64; }
        var ok := Grow(want);
        if !ok { return MAX64; }
        brkCur := want;
        return cur;
      }
      if delta < 0 {
        var drop := -delta;
        if drop > cur - brkBase { return MAX64; }
        var want := cur - drop;
        Shrink(want);
        brkCur := want;
        return cur;
      }
      return cur;
    }

    /** A fresh mapping at the next address of the region, or 0. */
    method Mmap(bytes: nat, prot: nat) returns (va: nat)
      requires Valid() && bytes <= MAX64
      modifies this`slotNext, this`nmaps, this`heapTop, this`mmapCur, this`handed, maps, kernel
      ensures Valid() && heapTop == old(heapTop)
      ensures kernel.refusals >= old(kernel.refusals)
      ensures va != 0 <==> 0 < Pages(bytes) <= mmapEnd - old(mmapCur)
                           && old(slotNext) <= slotEnd && old(nmaps) < MAPS && kernel.refusals == old(kernel.refusals)
      ensures va == 0 ==> mmapCur == old(mmapCur) && Recs() == old(Recs()) && handed == old(handed)
                          && kernel.frames.Keys == old(kernel.frames.Keys) && kernel.pages == old(kernel.pages)
      ensures va != 0 ==> Aligned(va) && 0 < bytes <= Pages(bytes) && va + Pages(bytes) == mmapCur
      ensures va != 0 ==> Recs() == old(Recs()) + {Rec(va, Pages(bytes), old(slotNext), prot, false)}
      ensures va != 0 ==> |handed| == |old(handed)| + 1 && old(handed) <= handed
                          && handed[|old(handed)|].vaddr == va && handed[|old(handed)|].bytes == Pages(bytes)
    {
      hide Sound, Tiles, Aligned, Pages, PagesOf, FramesOf, Grown, Between;
      var n := Pages(bytes);
      if n == 0 { return 0; }
      PagesTwice(bytes);
      va := MapNext(n, prot);
      if va != 0 {
        ghost var e := Rec(va, n, 0, prot, false);
        BetweenNext(handed, mmapBase, va, e);
        handed := handed + [e];
      }
    }

    /** A mapping of whole pages at the cursor, or 0 and the cursor where it was. */
    method MapNext(n: nat, prot: nat) returns (va: nat)
      requires Table() && Backed() && 0 < n == Pages(n)
      modifies this`slotNext, this`nmaps, this`heapTop, this`mmapCur, maps, kernel
      ensures Table() && Backed() && heapTop == old(heapTop)
      ensures kernel.refusals >= old(kernel.refusals)
      ensures va != 0 <==> n <= mmapEnd - old(mmapCur)
                           && old(slotNext) <= slotEnd && old(nmaps) < MAPS && kernel.refusals == old(kernel.refusals)
      ensures va == 0 ==> mmapCur == old(mmapCur) && Recs() == old(Recs())
                          && kernel.frames.Keys == old(kernel.frames.Keys) && kernel.pages == old(kernel.pages)
      ensures va != 0 ==> Aligned(va) && mmapBase <= va == old(mmapCur) && va + n == mmapCur
                          && Recs() == old(Recs()) + {Rec(va, n, old(slotNext), prot, false)}
    {
      hide Sound, Tiles, Aligned, Pages, PagesOf, FramesOf, Grown;
      ghost var recs := Recs();
      var reserved, at := Reserve(n, false);
      if !reserved { return 0; }
      AlignedDifference(at, n);
      BelowCursor(recs, brkBase, heapTop, at, n, prot);
      var added := Add(at, n, prot, false);
      if !added {
        mmapCur := at;
        return 0;
      }
      TilesOther(recs, Recs(), brkBase, heapTop);
      return at;
    }

    /** Returns the memory, and not the address, of an `mmap` mapping named by its start. */
    method Munmap(vaddr: nat) returns (r: int)
      requires Valid() && vaddr <= MAX64
      modifies this`nmaps, maps, kernel
      ensures Valid()
      ensures r == 0 || r == NOT_FOUND || r == INVALID_ARG
      ensures r == 0 <==> exists e :: e in old(Recs()) && !e.heap && e.vaddr == vaddr
      ensures r == INVALID_ARG <==> exists e :: e in old(Recs()) && e.heap && e.vaddr == vaddr
      ensures Recs() == if r == 0 then set e | e in old(Recs()) && e.vaddr != vaddr else old(Recs())
      ensures r != 0 ==> kernel.frames.Keys == old(kernel.frames.Keys) && kernel.pages == old(kernel.pages)
    {
      hide Tiles, Aligned;
      var idx := Find(vaddr, 1);
      ghost var recs := Recs();
      StartIsUnique(recs, vaddr);
      HeapBounded(recs, brkBase, heapTop);
      if idx < 0 || maps[idx].vaddr != vaddr {
        return NOT_FOUND;
      }
      assert maps[idx] in recs;
      if maps[idx].heap { return INVALID_ARG; }
      ghost var gone := maps[idx];
      Drop(idx);
      TilesOther(recs, Recs(), brkBase, heapTop);
      return 0;
    }

    /** Changes the protection of one whole mapping by unmapping and remapping it. `lost` says that the
        remap failed and putting the old protection back failed too. */
    method Mprotect(vaddr: nat, bytes: nat, prot: nat) returns (r: int, ghost lost: bool)
      requires Valid() && vaddr <= MAX64 && bytes <= MAX64
      modifies this`nmaps, maps, kernel
      ensures Core() && Bounds() && HandedOut()
      ensures Valid() <==> !lost
      ensures r == NOT_FOUND || r == NOT_SUPPORTED || r == INVALID_ARG || r == 0
      ensures kernel.refusals >= old(kernel.refusals) && (r == INVALID_ARG <==> kernel.refusals != old(kernel.refusals))
      ensures lost <==> kernel.refusals == old(kernel.refusals) + 2
      ensures bytes == 0 || vaddr + bytes > MAX64 ==> r == NOT_FOUND
      ensures 0 < bytes && vaddr + bytes <= MAX64 ==>
                (r == NOT_FOUND <==> forall e :: e in old(Recs()) ==> !(e.vaddr <= vaddr && vaddr + bytes <= e.End()))
      ensures lost ==> r == INVALID_ARG
      ensures lost ==> exists e :: e in old(Recs()) && e.vaddr == vaddr && e.bytes == bytes
                                   && Recs() == old(Recs()) - {e} && e.slot in kernel.frames
      ensures r == 0 ==> exists e :: e in old(Recs()) && e.vaddr == vaddr && e.bytes == bytes
                                     && Recs() == old(Recs()) - {e} + {e.(prot := prot)}
      ensures r != 0 && !lost ==> Recs() == old(Recs()) && kernel.pages == old(kernel.pages)
      ensures r == NOT_SUPPORTED ==> !exists e :: e in old(Recs()) && e.vaddr == vaddr && e.bytes == bytes
    {
      hide Tiles, Aligned, Sound;
      var idx := Find(vaddr, bytes);
      if idx < 0 { return NOT_FOUND, false; }
      ghost var recs := Recs();
      var e := maps[idx];
      assert e in recs;
      if vaddr != e.vaddr || bytes != e.bytes {
        OnlyContainer(recs, e, vaddr, bytes);
        return NOT_SUPPORTED, false;
      }
      if prot == e.prot {
        assert recs - {e} + {e.(prot := prot)} == recs;
        return 0, false;
      }
      r, lost := Remap(idx, prot);
    }

    method Remap(idx: nat, prot: nat) returns (r: int, ghost lost: bool)
      requires Valid() && idx < nmaps
      modifies this`nmaps, maps, kernel
      ensures Core() && Bounds() && HandedOut()
      ensures Valid() <==> !lost
      ensures lost ==> r == INVALID_ARG && Recs() == old(Recs()) - {old(maps[idx])} && old(maps[idx]).slot in kernel.frames
      ensures r == 0 || r == INVALID_ARG
      ensures kernel.refusals >= old(kernel.refusals) && (r == INVALID_ARG <==> kernel.refusals != old(kernel.refusals))
      ensures lost <==> kernel.refusals == old(kernel.refusals) + 2
      ensures r == 0 ==> Recs() == old(Recs()) - {old(maps[idx])} + {old(maps[idx]).(prot := prot)}
      ensures r != 0 && !lost ==> Recs() == old(Recs()) && kernel.pages == old(kernel.pages)
    {
      hide Tiles, Aligned, Sound, PagesOf, FramesOf;
      ghost var recs := Recs();
      var e := maps[idx];
      assert e in recs;
      UnmapOne(recs, e);
      DropPages(recs, e);
      ReprotectKeeps(recs, e, prot, brkBase, heapTop);
      SlotBacked(recs, e);
      var unmapped := kernel.Unmap(e.slot, e.vaddr);
      if !unmapped { return INVALID_ARG, false; }
      var mapped := kernel.Map(e.slot, e.vaddr, e.bytes, prot);
      if !mapped {
        var restored := kernel.Map(e.slot, e.vaddr, e.bytes, e.prot);
        if !restored {
          Forget(idx);
          return INVALID_ARG, true;
        }
        assert kernel.pages == PagesOf(recs);
        return INVALID_ARG, false;
      }
      Reprotect(idx, prot);
      return 0, false;
    }

    method Reprotect(idx: nat, prot: nat)
      requires Core() && idx < nmaps
      modifies maps
      ensures Core() && Recs() == old(Recs()) - {old(maps[idx])} + {old(maps[idx]).(prot := prot)}
    {
      hide Aligned;
      ghost var recs, e, s := Recs(), maps[idx], maps[..nmaps];
      forall i | 0 <= i < nmaps && i != idx ensures maps[i].slot != e.slot {
        assert maps[i] in recs && maps[i] != e;
      }
      maps[idx] := maps[idx].(prot := prot);
      assert maps[..nmaps] == s[idx := e.(prot := prot)];
      UpdateOne(s, idx, e.(prot := prot));
      assert Recs() == recs - {e} + {e.(prot := prot)};
      SoundReplace(recs, e, e.(prot := prot));
    }
  }

  lemma SlotBacked(recs: set<Rec>, e: Rec)
    requires e in recs
    ensures e.slot in FramesOf(recs)
  {}

  lemma UpdateOne(s: seq<Rec>, i: nat, v: Rec)
    requires i < |s| && (forall j, k :: 0 <= j < k < |s| ==> s[j] != s[k]) && (forall j :: 0 <= j < |s| && j != i ==> s[j] != v)
    ensures forall r :: r in s[i := v] <==> (r in s && r != s[i]) || r == v
    ensures var t := s[i := v]; forall j, k :: 0 <= j < k < |t| ==> t[j] != t[k]
  {
    forall r | r in s && r != s[i] ensures r in s[i := v] {
      var j :| 0 <= j < |s| && s[j] == r;
      assert s[i := v][j] == r;
    }
    assert s[i := v][i] == v;
  }

  lemma SoundReplace(recs: set<Rec>, e: Rec, v: Rec)
    requires Sound(recs) && e in recs && v.vaddr == e.vaddr && v.bytes == e.bytes && v.slot == e.slot
    ensures Sound(recs - {e} + {v})
  {}

  /** Of two records that do not overlap, only one can contain a non-empty range. */
  lemma OnlyContainer(recs: set<Rec>, e: Rec, vaddr: nat, bytes: nat)
    requires Sound(recs) && e in recs && 0 < bytes && e.vaddr <= vaddr && vaddr + bytes <= e.End()
    ensures forall r :: r in recs && r.vaddr == vaddr && r.bytes == bytes ==> r == e
  {}

  lemma UnmapOne(recs: set<Rec>, e: Rec)
    requires Sound(recs) && e in recs
    ensures (set p | p in PagesOf(recs) && !(p.slot == e.slot && p.vaddr == e.vaddr)) == PagesOf(recs - {e})
    ensures forall prot :: PagesOf(recs - {e}) + {Page(e.slot, e.vaddr, e.bytes, prot)} == PagesOf(recs - {e} + {e.(prot := prot)})
    ensures recs - {e} + {e} == recs && e.(prot := e.prot) == e
  {
    DropPages(recs, e);
    forall p | p in PagesOf(recs) && p.slot == e.slot ensures p.vaddr == e.vaddr {
      var r :| r in recs && p == Page(r.slot, r.vaddr, r.bytes, r.prot);
      assert r == e;
    }
    forall prot ensures PagesOf(recs - {e}) + {Page(e.slot, e.vaddr, e.bytes, prot)} == PagesOf(recs - {e} + {e.(prot := prot)}) {
      var v := e.(prot := prot);
      assert v in recs - {e} + {v};
    }
  }

  lemma ReprotectKeeps(recs: set<Rec>, e: Rec, prot: nat, lo: nat, hi: nat)
    requires e in recs && Tiles(recs, lo, hi)
    ensures Tiles(recs - {e} + {e.(prot := prot)}, lo, hi)
    ensures FramesOf(recs - {e} + {e.(prot := prot)}) == FramesOf(recs)
  {
    var v := e.(prot := prot);
    var recs' := recs - {e} + {v};
    forall a | lo <= a < hi ensures Covered(recs', a) {
      assert Covered(recs, a);
      var r :| r in recs && r.heap && r.Covers(a);
      if r == e { assert v in recs' && v.Covers(a); } else { assert r in recs'; }
    }
    assert v in recs';
    forall r | r in recs ensures r.slot in FramesOf(recs') {
      if r != e { assert r in recs'; }
    }
  }

  /** The lowest dropped record starts on a page. */
  lemma TopAligned(recs: set<Rec>, at: nat, top: nat)
    requires Sound(recs) && Aligned(top)
    requires at == top || exists r :: r in recs && r.vaddr == at
    ensures Aligned(at)
  {}

  lemma PagesTwice(bytes: nat)
    ensures Pages(bytes) != 0 ==> 0 < bytes <= Pages(bytes) == Pages(Pages(bytes))
  {}

  /** Nothing recorded reaches past the mmap cursor. */
  lemma BelowCursor(recs: set<Rec>, lo: nat, top: nat, at: nat, n: nat, prot: nat)
    requires Tiles(recs, lo, top) && top <= at
    requires forall r :: r in recs && !r.heap ==> r.End() <= at
    ensures forall r :: r in recs ==> Apart(r, Rec(at, n, 0, prot, false))
  {}

  lemma HeapBounded(recs: set<Rec>, lo: nat, top: nat)
    requires Tiles(recs, lo, top)
    ensures forall r :: r in recs && r.heap ==> r.End() <= top
  {}

  lemma StartIsUnique(recs: set<Rec>, vaddr: nat)
    requires Sound(recs)
    ensures forall r, s :: r in recs && s in recs && r.Covers(vaddr) && s.Covers(vaddr) ==> r == s
    ensures forall r :: r in recs && r.vaddr == vaddr ==> r.Covers(vaddr)
  {}

  lemma FreshSlot(recs: set<Rec>, slot: nat)
    requires forall r :: r in recs ==> r.slot < slot
    ensures slot !in FramesOf(recs) && forall p :: p in PagesOf(recs) ==> p.slot != slot
  {}

  lemma AddPages(recs: set<Rec>, e: Rec)
    ensures PagesOf(recs + {e}) == PagesOf(recs) + {Page(e.slot, e.vaddr, e.bytes, e.prot)}
    ensures FramesOf(recs + {e}) == FramesOf(recs) + {e.slot}
  {}

  lemma DropPages(recs: set<Rec>, e: Rec)
    requires Sound(recs) && e in recs
    ensures PagesOf(recs - {e}) == set p | p in PagesOf(recs) && p.slot != e.slot
    ensures FramesOf(recs - {e}) == FramesOf(recs) - {e.slot}
  {
    forall p | p in PagesOf(recs) && p.slot != e.slot ensures p in PagesOf(recs - {e}) {
      var r :| r in recs && p == Page(r.slot, r.vaddr, r.bytes, r.prot);
      assert r in recs - {e};
    }
    forall n | n in FramesOf(recs) && n != e.slot ensures n in FramesOf(recs - {e}) {
      var r :| r in recs && r.slot == n;
      assert r in recs - {e};
    }
  }

  /** What is needed below an aligned ceiling still fits when rounded up. */
  lemma PagesOfNeed(n: nat, cur: nat, end: nat)
    requires 0 < n <= end - cur && Aligned(cur) && Aligned(end) && end <= MAX64 - PAGE
    ensures 0 < n <= Pages(n) <= end - cur && (Aligned(n) ==> Pages(n) == n)
  {}

  /** Records below the break, and records in the mmap region, are apart from the next chunk. */
  lemma AboveHeap(recs: set<Rec>, lo: nat, top: nat, va: nat, n: nat)
    requires Tiles(recs, lo, top) && va == top
    requires forall r :: r in recs && !r.heap ==> va + n <= r.vaddr
    ensures forall r :: r in recs ==> Apart(r, Rec(va, n, 0, PROT_RW, true))
  {}

  /** Moving the last element into the hole removes exactly one element. */
  lemma SwapRemove(s: seq<Rec>, i: nat)
    requires i < |s| && forall j, k :: 0 <= j < k < |s| ==> s[j] != s[k]
    ensures var t := s[i := s[|s| - 1]][..|s| - 1];
            && (forall r :: r in t <==> r in s && r != s[i])
            && (forall j, k :: 0 <= j < k < |t| ==> t[j] != t[k])
  {
    var n := |s| - 1;
    var t := s[i := s[n]][..n];
    forall r | r in s && r != s[i] ensures r in t {
      var j :| 0 <= j < |s| && s[j] == r;
      assert if j == n then t[i] == r else t[j] == r;
    }
  }
}
