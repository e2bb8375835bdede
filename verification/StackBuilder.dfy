/** Building the initial stack in a mapped region, and what a program then reads from it. */
module StackBuilder {
  import opened Wrappers
  import opened Bytes
  import opened ProgStack

  // ---- the layout ----

  /** What goes on a stack. */
  datatype Contents = Contents(argv: seq<CString>, envp: seq<CString>, aux: seq<Aux>) {
    function StringBytes(): nat { |Joined(argv)| + |Joined(envp)| }

    function VectorBytes(): nat { 8 * (1 + |argv| + 1 + |envp| + 1 + 2 * (|aux| + 1)) }

    predicate Fits(bytes: nat) {
      bytes >= 64 && StringBytes() <= bytes && VectorBytes() <= (bytes - StringBytes()) / 8 * 8
    }

    /** Where the strings start: as high as they go, on a word. */
    function StringsOff(bytes: nat): (o: nat)
      requires Fits(bytes)
      ensures o % 8 == 0 && o + StringBytes() <= bytes < o + 8 + StringBytes()
    {
      (bytes - StringBytes()) / 8 * 8
    }

    /** Where the stack pointer lands: below the vectors, on sixteen. */
    function PointerOff(bytes: nat): (o: nat)
      requires Fits(bytes)
      ensures o % 16 == 0 && o + VectorBytes() <= StringsOff(bytes) < o + 16 + VectorBytes()
    {
      (StringsOff(bytes) - VectorBytes()) / 16 * 16
    }

    /** As many pairs as a 32-bit count can say. */
    predicate Counted() { |aux| < 2 * WRAP }

    /** The pairs and their terminator, as they lie in memory. */
    function Pairs(): (pairs: seq<Aux>)
      requires Counted()
      ensures |pairs| <= |aux| + 1
    {
      Laid(aux + [NULL_PAIR])
    }

    /** The words written; short of the room measured once the index wraps. */
    function Words(base: nat, bytes: nat): (ws: seq<nat>)
      requires Fits(bytes) && Counted()
      ensures 8 * |ws| <= VectorBytes()
    {
      var at := base + StringsOff(bytes);
      Vector(Addresses(argv, at), Addresses(envp, at + |Joined(argv)|), Pairs())
    }

    ghost predicate AuxValid() {
      forall i :: 0 <= i < |aux| ==> 0 < aux[i].kind < U64 && aux[i].val < U64
    }
  }

  /** Contents fit exactly when the region has 64 bytes and some word-aligned offset with the strings above
      it and the vectors below. */
  lemma FitsIff(c: Contents, bytes: nat)
    ensures c.Fits(bytes) <==>
            bytes >= 64 && exists o: nat :: o % 8 == 0 && 8 * (|c.argv| + |c.envp| + 2 * |c.aux| + 5) <= o && o + c.StringBytes() <= bytes
  {
    if c.Fits(bytes) {
      var o := c.StringsOff(bytes);
      assert o % 8 == 0 && c.VectorBytes() <= o;
    }
  }

  /** The region holds the contents: the vector at the pointer, the strings above it. */
  ghost predicate Built(mem: seq<byte>, base: nat, c: Contents) {
    c.Fits(|mem|) && c.Counted()
    && mem[c.PointerOff(|mem|)..c.PointerOff(|mem|) + 8 * |c.Words(base, |mem|)|] == Packed(c.Words(base, |mem|))
    && mem[c.StringsOff(|mem|)..c.StringsOff(|mem|) + c.StringBytes()] == Joined(c.argv) + Joined(c.envp)
  }

  lemma {:induction false} AddressesInside(strs: seq<CString>, at: nat, i: nat)
    requires i < |strs|
    ensures at <= Addresses(strs, at)[i] < at + |Joined(strs)|
  {
    var n := |strs| - 1;
    if i < n { AddressesInside(strs[..n], at, i); }
  }

  lemma {:induction false} AuxBounded(aux: seq<Aux>, i: nat)
    requires i < 2 * |aux| && forall k :: 0 <= k < |aux| ==> aux[k].kind < U64 && aux[k].val < U64
    ensures AuxWords(aux)[i] < U64
  {
    var n := |aux| - 1;
    if i < 2 * n { AuxBounded(aux[..n], i); }
  }

  lemma WordsBounded(c: Contents, base: nat, bytes: nat)
    requires c.Fits(bytes) && c.Counted() && c.AuxValid() && base + bytes <= U64
    ensures forall i :: 0 <= i < |c.Words(base, bytes)| ==> c.Words(base, bytes)[i] < U64
  {
    hide Joined, Addresses, AuxWords;
    var at := base + c.StringsOff(bytes);
    var argv, envp, aux := Addresses(c.argv, at), Addresses(c.envp, at + |Joined(c.argv)|), AuxWords(c.Pairs());
    forall k | 0 <= k < |c.Pairs()| ensures c.Pairs()[k].kind < U64 && c.Pairs()[k].val < U64 {
      LaidFrom(c.aux + [NULL_PAIR], k);
    }
    forall i | 0 <= i < |argv| ensures argv[i] < U64 { AddressesInside(c.argv, at, i); }
    forall i | 0 <= i < |envp| ensures envp[i] < U64 { AddressesInside(c.envp, at + |Joined(c.argv)|, i); }
    forall i | 0 <= i < |aux| ensures aux[i] < U64 { AuxBounded(c.Pairs(), i); }
  }

  /** Every pair in memory is one of those stored. */
  lemma LaidFrom(pairs: seq<Aux>, k: nat)
    requires |pairs| <= 2 * WRAP && k < |Laid(pairs)|
    ensures exists i :: 0 <= i < |pairs| && Laid(pairs)[k] == pairs[i]
  {
    LaidAt(pairs, k);
  }

  /** The round trip: a program that walks up from the pointer finds the argument count and the
      argument and environment strings that were given. It finds the auxiliary pairs that were given, in
      order, exactly when there are fewer than 2^31 of them, and those from the 2^31st on otherwise. */
  lemma BuiltReads(mem: seq<byte>, base: nat, c: Contents)
    requires Built(mem, base, c) && c.AuxValid() && 0 < base && base + |mem| <= U64
    ensures var start := Walk(Unpacked(mem[c.PointerOff(|mem|)..]));
            start.Some?
            && StringsAt(mem, base, start.value.argv) == Some(c.argv)
            && StringsAt(mem, base, start.value.envp) == Some(c.envp)
            && start.value.aux == Found(c.aux)
            && (start.value.aux == c.aux <==> |c.aux| < WRAP)
  {
    hide Joined, Addresses, AuxWords, Packed, Unpacked, Walk, StringsAt, Laid, Found;
    var off, strings := c.PointerOff(|mem|), c.StringsOff(|mem|);
    var at := base + strings;
    var ws := c.Words(base, |mem|);
    var rest := mem[off + 8 * |ws|..];
    assert mem[off..] == Packed(ws) + rest;
    WordsBounded(c, base, |mem|);
    PackedReads(ws, rest);
    var argv, envp := Addresses(c.argv, at), Addresses(c.envp, at + |Joined(c.argv)|);
    forall i | 0 <= i < |argv| ensures argv[i] != 0 { AddressesInside(c.argv, at, i); }
    forall i | 0 <= i < |envp| ensures envp[i] != 0 { AddressesInside(c.envp, at + |Joined(c.argv)|, i); }
    var more := LaidIs(c.aux);
    FoundNamed(c.aux);
    VectorReads(argv, envp, Found(c.aux), more, Unpacked(rest));
    StringsRead(mem, base, c);
  }

  lemma FoundNamed(aux: seq<Aux>)
    requires Named(aux)
    ensures Named(Found(aux))
  {}

  lemma StringsRead(mem: seq<byte>, base: nat, c: Contents)
    requires Built(mem, base, c)
    ensures var at := base + c.StringsOff(|mem|);
            StringsAt(mem, base, Addresses(c.argv, at)) == Some(c.argv)
            && StringsAt(mem, base, Addresses(c.envp, at + |Joined(c.argv)|)) == Some(c.envp)
  {
    hide Joined, Addresses, Packed, StringsAt;
    var off, n := c.StringsOff(|mem|), |Joined(c.argv)|;
    var block := mem[off..off + c.StringBytes()];
    assert mem[off..off + n] == block[..n] == Joined(c.argv);
    assert mem[off + n..off + n + |Joined(c.envp)|] == block[n..] == Joined(c.envp);
    JoinedReads(mem, base, c.argv, off);
    JoinedReads(mem, base, c.envp, off + n);
    assert base + (off + n) == base + off + n;
  }

  // ---- building ----

  /** Nothing outside the two ranges moved. */
  twostate predicate OnlyIn(mem: array<byte>, a: nat, b: nat, c: nat, d: nat)
    reads mem
  {
    forall k :: 0 <= k < mem.Length && !(a <= k < b) && !(c <= k < d) ==> mem[k] == old(mem[k])
  }

  method StoreWord(mem: array<byte>, off: nat, v: nat)
    requires off + 8 <= mem.Length
    modifies mem
    ensures mem[off..off + 8] == Le(v, 8) && OnlyIn(mem, off, off + 8, off, off)
  {
    hide Le;
    var rest := v;
    for b := 0 to 8
      invariant OnlyIn(mem, off, off + 8, off, off)
      invariant Le(v, 8) == mem[off..off + b] + Le(rest, 8 - b)
    {
      ghost var before := mem[off..off + b];
      LeStep(rest, 8 - b);
      mem[off + b] := rest % 256;
      rest := rest / 256;
      assert mem[off..off + b + 1] == before + [mem[off + b]];
    }
  }

  /** One string and its terminator. */
  method StoreString(mem: array<byte>, off: nat, s: CString)
    requires off + |s| + 1 <= mem.Length
    modifies mem
    ensures mem[off..off + |s| + 1] == s + [0] && OnlyIn(mem, off, off + |s| + 1, off, off)
  {
    var text := s + [0];
    for k := 0 to |text|
      invariant mem[off..off + k] == text[..k] && OnlyIn(mem, off, off + |s| + 1, off, off)
    {
      mem[off + k] := text[k];
      assert mem[off..off + k + 1] == mem[off..off + k] + [text[k]];
    }
  }

  /** The texts of strings some of which are null: a null one measures as empty. */
  function Texts(strs: seq<Option<CString>>): (r: seq<CString>)
    ensures |r| == |strs|
  {
    seq(|strs|, i requires 0 <= i < |strs| => Text(strs[i]))
  }

  function Text(s: Option<CString>): CString { if s.Some? then s.value else [] }

  /** The measuring pass. */
  method Measure(strs: seq<Option<CString>>) returns (n: nat)
    ensures n == |Joined(Texts(strs))|
  {
    ghost var texts := Texts(strs);
    n := 0;
    for i := 0 to |strs|
      invariant n == |Joined(texts[..i])|
    {
      JoinedNext(texts, i, 0);
      n := n + |Text(strs[i])| + 1;
    }
    assert texts[..|strs|] == texts;
  }

  lemma JoinedNext(strs: seq<CString>, i: nat, at: nat)
    requires i < |strs|
    ensures Joined(strs[..i + 1]) == Joined(strs[..i]) + (strs[i] + [0])
    ensures Addresses(strs[..i + 1], at) == Addresses(strs[..i], at) + [at + |Joined(strs[..i])|]
  {
    assert strs[..i + 1][..i] == strs[..i];
  }

  /** One string at the cursor and its address in the vector. */
  method PlaceOne(mem: array<byte>, base: nat, s: CString, vec: nat, cursor: nat)
    requires vec + 8 <= cursor && cursor + |s| + 1 <= mem.Length
    modifies mem
    ensures mem[cursor..cursor + |s| + 1] == s + [0]
    ensures mem[vec..vec + 8] == Le(base + cursor, 8)
    ensures OnlyIn(mem, vec, vec + 8, cursor, cursor + |s| + 1)
  {
    hide Le;
    StoreString(mem, cursor, s);
    ghost var text := mem[cursor..cursor + |s| + 1];
    StoreWord(mem, vec, base + cursor);
    assert mem[cursor..cursor + |s| + 1] == text;
  }

  /** The strings before `i` are in place: text from the cursor, addresses from `vec`. */
  ghost predicate Placed(mem: array<byte>, base: nat, strs: seq<CString>, i: nat, vec: nat, cursor: nat)
    requires i <= |strs|
    reads mem
  {
    vec + 8 * i <= cursor && cursor + |Joined(strs[..i])| <= mem.Length
    && mem[cursor..cursor + |Joined(strs[..i])|] == Joined(strs[..i])
    && mem[vec..vec + 8 * i] == Packed(Addresses(strs[..i], base + cursor))
  }

  method PlaceNext(mem: array<byte>, base: nat, strs: seq<CString>, i: nat, vec: nat, cursor: nat, end: nat)
    requires i < |strs| && Placed(mem, base, strs, i, vec, cursor) && end == cursor + |Joined(strs[..i])|
    requires vec + 8 * (i + 1) <= cursor && cursor + |Joined(strs)| <= mem.Length
    modifies mem
    ensures Placed(mem, base, strs, i + 1, vec, cursor)
    ensures |Joined(strs[..i + 1])| == |Joined(strs[..i])| + |strs[i]| + 1
    ensures OnlyIn(mem, vec + 8 * i, vec + 8 * i + 8, end, end + |strs[i]| + 1)
  {
    hide Le, Joined, Packed, Addresses;
    ghost var text, words := mem[cursor..end], mem[vec..vec + 8 * i];
    JoinedNext(strs, i, base + cursor);
    JoinedPrefix(strs, i + 1);
    PlaceOne(mem, base, strs[i], vec + 8 * i, end);
    PackedNext(Addresses(strs[..i], base + cursor), base + end);
    assert mem[vec..vec + 8 * i + 8] == words + mem[vec + 8 * i..vec + 8 * i + 8];
    assert mem[cursor..end + |strs[i]| + 1] == text + mem[end..end + |strs[i]| + 1];
  }

  /** Strings from the cursor up, their addresses from `vec` up. */
  method PlaceStrings(mem: array<byte>, base: nat, strs: seq<CString>, vec: nat, cursor: nat) returns (end: nat)
    requires vec + 8 * |strs| <= cursor && cursor + |Joined(strs)| <= mem.Length
    modifies mem
    ensures end == cursor + |Joined(strs)|
    ensures mem[cursor..end] == Joined(strs)
    ensures mem[vec..vec + 8 * |strs|] == Packed(Addresses(strs, base + cursor))
    ensures OnlyIn(mem, vec, vec + 8 * |strs|, cursor, end)
  {
    hide Le, Joined, Packed, Addresses;
    end := cursor;
    PrefixNothing(strs, base + cursor);
    for i := 0 to |strs|
      invariant end == cursor + |Joined(strs[..i])|
      invariant Placed(mem, base, strs, i, vec, cursor)
      invariant OnlyIn(mem, vec, vec + 8 * i, cursor, end)
    {
      PlaceNext(mem, base, strs, i, vec, cursor, end);
      end := end + |strs[i]| + 1;
    }
    assert strs[..|strs|] == strs;
  }

  /** A list of strings with the null word after it. */
  method PlaceList(mem: array<byte>, base: nat, strs: seq<CString>, vec: nat, cursor: nat) returns (end: nat)
    requires vec + 8 * (|strs| + 1) <= cursor && cursor + |Joined(strs)| <= mem.Length
    modifies mem
    ensures end == cursor + |Joined(strs)|
    ensures mem[cursor..end] == Joined(strs)
    ensures mem[vec..vec + 8 * (|strs| + 1)] == Packed(Addresses(strs, base + cursor) + [0])
    ensures OnlyIn(mem, vec, vec + 8 * (|strs| + 1), cursor, end)
  {
    hide Le, Joined, Packed, Addresses;
    end := PlaceStrings(mem, base, strs, vec, cursor);
    var n := 8 * |strs|;
    ghost var text, words := mem[cursor..end], mem[vec..vec + n];
    StoreWord(mem, vec + n, 0);
    PackedNext(Addresses(strs, base + cursor), 0);
    assert mem[cursor..end] == text;
    assert mem[vec..vec + n + 8] == words + mem[vec + n..vec + n + 8];
  }

  lemma PrefixNothing(strs: seq<CString>, at: nat)
    ensures Joined(strs[..0]) == [] && Packed(Addresses(strs[..0], at)) == []
  {}

  lemma PackedNext(ws: seq<nat>, w: nat)
    ensures Packed(ws + [w]) == Packed(ws) + Le(w, 8)
  {
    hide Le;
    assert (ws + [w])[..|ws|] == ws;
  }

  /** A prefix of the strings takes no more room than all of them. */
  lemma {:induction false} JoinedPrefix(strs: seq<CString>, i: nat)
    requires i <= |strs|
    ensures |Joined(strs[..i])| <= |Joined(strs)|
  {
    var n := |strs| - 1;
    if i <= n {
      JoinedPrefix(strs[..n], i);
      assert strs[..n][..i] == strs[..i];
    } else {
      assert strs[..i] == strs;
    }
  }

  /** The bytes of a list of pairs. */
  function PairBytes(pairs: seq<Aux>): (r: seq<byte>)
    ensures |r| == 16 * |pairs|
  {
    Packed(AuxWords(pairs))
  }

  /** The auxiliary pairs and their terminator, each at its 32-bit index. */
  method PlaceAux(mem: array<byte>, aux: seq<Aux>, at: nat)
    requires at + 16 * (|aux| + 1) <= mem.Length && |aux| < 2 * WRAP
    modifies mem
    ensures var pairs := Laid(aux + [NULL_PAIR]);
            mem[at..at + 16 * |pairs|] == PairBytes(pairs) && OnlyIn(mem, at, at + 16 * |pairs|, at, at)
  {
    hide PairBytes, Laid;
    ghost var all := aux + [NULL_PAIR];
    LaidNone(all);
    for i := 0 to |aux|
      invariant var L := Laid(all[..i]);
                mem[at..at + 16 * |L|] == PairBytes(L) && OnlyIn(mem, at, at + 16 * |L|, at, at)
    {
      assert all[i] == aux[i];
      PlacePair(mem, all, i, at, aux[i]);
    }
    PlacePair(mem, all, |aux|, at, NULL_PAIR);
    assert all[..|aux| + 1] == all;
  }

  lemma LaidNone(all: seq<Aux>)
    ensures Laid(all[..0]) == [] && PairBytes([]) == []
  {}

  method PlacePair(mem: array<byte>, ghost all: seq<Aux>, i: nat, at: nat, a: Aux)
    requires i < |all| <= 2 * WRAP && all[i] == a && at + 16 * |all| <= mem.Length
    requires var L := Laid(all[..i]); mem[at..at + 16 * |L|] == PairBytes(L)
    modifies mem
    ensures var L := Laid(all[..i + 1]); mem[at..at + 16 * |L|] == PairBytes(L) && OnlyIn(mem, at, at + 16 * |L|, at, at)
  {
    hide PairBytes, Laid;
    var index := i * 2 % 0x1_0000_0000;
    IndexWraps(i);
    LaidNext(all, i);
    ghost var L, before := Laid(all[..i]), mem[..];
    StorePair(mem, at + 8 * index, a);
    ghost var after := mem[..];
    assert after[at + 8 * index..at + 8 * index + 16] == PairBytes([a]);
    if i < WRAP { Appended(before, after, at, L, a); } else { Replaced(before, after, at, L, i - WRAP, a); }
  }

  lemma IndexWraps(i: nat)
    requires i < 2 * WRAP
    ensures 8 * (i * 2 % 0x1_0000_0000) == 16 * if i < WRAP then i else i - WRAP
  {}

  /** Two memories that agree outside sixteen bytes. */
  ghost predicate SameBut(before: seq<byte>, after: seq<byte>, off: nat) {
    |before| == |after| && forall k :: 0 <= k < |after| && !(off <= k < off + 16) ==> after[k] == before[k]
  }

  lemma Appended(before: seq<byte>, after: seq<byte>, at: nat, L: seq<Aux>, a: Aux)
    requires SameBut(before, after, at + 16 * |L|) && at + 16 * |L| + 16 <= |after|
    requires before[at..at + 16 * |L|] == PairBytes(L) && after[at + 16 * |L|..at + 16 * |L| + 16] == PairBytes([a])
    ensures after[at..at + 16 * |L + [a]|] == PairBytes(L + [a])
  {
    hide PairBytes;
    var n := at + 16 * |L|;
    PairBytesNext(L, a);
    assert after[at..n] == before[at..n];
    assert after[at..n + 16] == after[at..n] + after[n..n + 16];
  }

  lemma Replaced(before: seq<byte>, after: seq<byte>, at: nat, L: seq<Aux>, j: nat, a: Aux)
    requires j < |L| && SameBut(before, after, at + 16 * j) && at + 16 * |L| <= |after|
    requires before[at..at + 16 * |L|] == PairBytes(L) && after[at + 16 * j..at + 16 * j + 16] == PairBytes([a])
    ensures after[at..at + 16 * |L[j := a]|] == PairBytes(L[j := a])
  {
    hide PairBytes;
    var i, e := at + 16 * j, at + 16 * |L|;
    PairBytesUpdate(L, j, a);
    var bytes := before[at..e];
    assert after[at..i] == before[at..i] == bytes[..16 * j];
    assert after[i + 16..e] == before[i + 16..e] == bytes[16 * j + 16..];
    ThreeParts(after, at, i, i + 16, e);
  }

  lemma PairBytesConcat(a: seq<Aux>, b: seq<Aux>)
    ensures PairBytes(a + b) == PairBytes(a) + PairBytes(b)
  {
    hide Packed, AuxWords;
    AuxConcat(a, b);
    PackedConcat(AuxWords(a), AuxWords(b));
  }

  lemma PairBytesNext(L: seq<Aux>, a: Aux)
    ensures PairBytes(L + [a]) == PairBytes(L) + PairBytes([a])
  {
    PairBytesConcat(L, [a]);
  }

  lemma PairBytesUpdate(L: seq<Aux>, j: nat, a: Aux)
    requires j < |L|
    ensures PairBytes(L[j := a]) == PairBytes(L)[..16 * j] + PairBytes([a]) + PairBytes(L)[16 * j + 16..]
  {
    hide PairBytes;
    var before, after := L[..j], L[j + 1..];
    assert L == before + ([L[j]] + after) && L[j := a] == before + ([a] + after);
    PairBytesConcat(before, [L[j]] + after);
    PairBytesConcat([L[j]], after);
    PairBytesConcat(before, [a] + after);
    PairBytesConcat([a], after);
    assert PairBytes(L)[..16 * j] == PairBytes(before);
    assert PairBytes(L)[16 * j + 16..] == PairBytes(after);
  }

  method StorePair(mem: array<byte>, off: nat, a: Aux)
    requires off + 16 <= mem.Length
    modifies mem
    ensures mem[off..off + 16] == PairBytes([a]) && OnlyIn(mem, off, off + 16, off, off)
  {
    hide Le, Packed;
    StoreWord(mem, off, a.kind);
    StoreWord(mem, off + 8, a.val);
    PackedNext([a.kind], a.val);
    PackedOne(a.kind);
    assert [a.kind] + [a.val] == [a.kind, a.val];
    AuxOne(a);
    assert mem[off..off + 16] == mem[off..off + 8] + mem[off + 8..off + 16];
  }

  /** The first `n` of what a possibly missing pointer points at. */
  function Taken<T>(v: Option<seq<T>>, n: nat): (s: seq<T>)
    requires v.Some? ==> n <= |v.value|
  {
    if v.None? || n == 0 then [] else v.value[..n]
  }

  /** No null among the strings. */
  predicate Present(strs: seq<Option<CString>>) {
    forall i :: 0 <= i < |strs| ==> strs[i].Some?
  }

  /** `prog_stack_build`. It refuses exactly a missing region, a missing vector with entries, a region
      under 64 bytes, and contents that do not fit; and then it writes nothing. Otherwise, its strings
      being there to copy, the pointer is 16-byte aligned, the contents are built in the region, and the
      rest of it is untouched. The counts are 32-bit. */
  method Build(mem: array?<byte>, base: nat, argv: Option<seq<Option<CString>>>, argc: nat,
               envp: Option<seq<Option<CString>>>, envc: nat, aux: Option<seq<Aux>>, auxc: nat)
    returns (sp: nat)
    requires argv.Some? ==> argc <= |argv.value|
    requires envp.Some? ==> envc <= |envp.value|
    requires aux.Some? ==> auxc <= |aux.value|
    requires auxc < 0x1_0000_0000
    requires base > 0 && base % 16 == 0
    requires mem != null && Contents(Texts(Taken(argv, argc)), Texts(Taken(envp, envc)), Taken(aux, auxc)).Fits(mem.Length) ==>
               Present(Taken(argv, argc)) && Present(Taken(envp, envc))
    modifies mem
    ensures var c := Contents(Texts(Taken(argv, argc)), Texts(Taken(envp, envc)), Taken(aux, auxc));
            sp != 0 <==> mem != null && (argc == 0 || argv.Some?) && (envc == 0 || envp.Some?) && (auxc == 0 || aux.Some?)
                         && c.Fits(mem.Length)
    ensures sp == 0 && mem != null ==> mem[..] == old(mem[..])
    ensures sp != 0 ==>
              var c := Contents(Texts(Taken(argv, argc)), Texts(Taken(envp, envc)), Taken(aux, auxc));
              var bytes := mem.Length;
              sp == base + c.PointerOff(bytes) && sp % 16 == 0 && Built(mem[..], base, c)
              && OnlyIn(mem, c.PointerOff(bytes), c.PointerOff(bytes) + 8 * |c.Words(base, bytes)|,
                        c.StringsOff(bytes), c.StringsOff(bytes) + c.StringBytes())
  {
    hide Joined, Packed, Addresses, AuxWords, Built, Laid, Texts, Present, Contents.Words, Contents.Pairs, Contents.Fits, Contents.StringsOff, Contents.PointerOff;
    if mem == null { return 0; }
    Offsets(Contents(Texts(Taken(argv, argc)), Texts(Taken(envp, envc)), Taken(aux, auxc)), mem.Length);
    if mem.Length < 64 { return 0; }
    if argc != 0 && argv.None? { return 0; }
    if envc != 0 && envp.None? { return 0; }
    if auxc != 0 && aux.None? { return 0; }
    var args, envs := Taken(argv, argc), Taken(envp, envc);
    var c := Contents(Texts(args), Texts(envs), Taken(aux, auxc));
    var a := Measure(args);
    var e := Measure(envs);
    if a + e > mem.Length { return 0; }
    var strOff := (mem.Length - (a + e)) / 8 * 8;
    if c.VectorBytes() > strOff { return 0; }
    var rspOff := (strOff - c.VectorBytes()) / 16 * 16;
    Write(mem, base, c, rspOff, strOff);
    sp := base + rspOff;
  }

  lemma Offsets(c: Contents, bytes: nat)
    ensures c.Fits(bytes) <==>
            bytes >= 64 && c.StringBytes() <= bytes && c.VectorBytes() <= (bytes - c.StringBytes()) / 8 * 8
    ensures c.Fits(bytes) ==>
              var o := (bytes - c.StringBytes()) / 8 * 8;
              c.StringsOff(bytes) == o && c.PointerOff(bytes) == (o - c.VectorBytes()) / 16 * 16
  {
    hide Joined;
  }

  /** The writing pass. */
  method Write(mem: array<byte>, base: nat, c: Contents, rspOff: nat, strOff: nat)
    requires c.Fits(mem.Length) && c.Counted() && rspOff == c.PointerOff(mem.Length) && strOff == c.StringsOff(mem.Length)
    modifies mem
    ensures Built(mem[..], base, c)
    ensures OnlyIn(mem, rspOff, rspOff + 8 * |c.Words(base, mem.Length)|, strOff, strOff + c.StringBytes())
  {
    hide Joined, Packed, Addresses, AuxWords, Le, Built, Laid, PairBytes, Contents.PointerOff, Contents.StringsOff, Contents.Fits, Contents.Words;
    var auxAt := rspOff + 8 + 8 * (|c.argv| + 1) + 8 * (|c.envp| + 1);
    WriteParts(mem, base, c.argv, c.envp, c.aux, rspOff, strOff, auxAt);
    WordsLength(c, base, mem.Length);
    BuiltParts(mem[..], base, c, rspOff, strOff, auxAt);
  }

  /** Lists, strings, pairs and count, each where it goes. */
  method WriteParts(mem: array<byte>, base: nat, argv: seq<CString>, envp: seq<CString>, aux: seq<Aux>,
                    rspOff: nat, strOff: nat, auxAt: nat)
    requires auxAt == rspOff + 8 + 8 * (|argv| + 1) + 8 * (|envp| + 1) && auxAt + 16 * (|aux| + 1) <= strOff
    requires strOff + |Joined(argv)| + |Joined(envp)| <= mem.Length && |aux| < 2 * WRAP
    modifies mem
    ensures var all, pairs := mem[..], Laid(aux + [NULL_PAIR]);
            && all[rspOff..rspOff + 8] == Le(|argv|, 8)
            && all[rspOff + 8..auxAt] == Packed(Addresses(argv, base + strOff) + [0]) + Packed(Addresses(envp, base + strOff + |Joined(argv)|) + [0])
            && all[auxAt..auxAt + 16 * |pairs|] == PairBytes(pairs)
            && all[strOff..strOff + |Joined(argv)| + |Joined(envp)|] == Joined(argv) + Joined(envp)
            && OnlyIn(mem, rspOff, auxAt + 16 * |pairs|, strOff, strOff + |Joined(argv)| + |Joined(envp)|)
  {
    hide Joined, Packed, Addresses, AuxWords, Le, Laid, PairBytes;
    var top := WriteLists(mem, base, argv, envp, rspOff + 8, strOff);
    ghost var words, text := mem[rspOff + 8..auxAt], mem[strOff..top];
    WriteEnds(mem, aux, rspOff, auxAt, |argv|);
    assert mem[rspOff + 8..auxAt] == words;
    assert mem[strOff..top] == text;
  }

  lemma WordsLength(c: Contents, base: nat, bytes: nat)
    requires c.Fits(bytes) && c.Counted()
    ensures 8 * |c.Words(base, bytes)| == 8 + 8 * (|c.argv| + 1) + 8 * (|c.envp| + 1) + 16 * |c.Pairs()|
  {
    hide Joined, Laid, AuxWords, Addresses;
  }

  lemma BuiltParts(mem: seq<byte>, base: nat, c: Contents, off: nat, str: nat, auxAt: nat)
    requires c.Fits(|mem|) && c.Counted() && off == c.PointerOff(|mem|) && str == c.StringsOff(|mem|)
    requires auxAt == off + 8 + 8 * (|c.argv| + 1) + 8 * (|c.envp| + 1)
    requires mem[off..off + 8] == Le(|c.argv|, 8)
    requires mem[off + 8..auxAt] == Packed(Addresses(c.argv, base + str) + [0]) + Packed(Addresses(c.envp, base + str + |Joined(c.argv)|) + [0])
    requires mem[auxAt..auxAt + 16 * |c.Pairs()|] == PairBytes(c.Pairs())
    requires mem[str..str + |Joined(c.argv)| + |Joined(c.envp)|] == Joined(c.argv) + Joined(c.envp)
    ensures Built(mem, base, c)
  {
    hide Joined, Packed, Addresses, AuxWords, Le, Laid, PairBytes;
    VectorPacked(c, base, |mem|);
    WordsLength(c, base, |mem|);
    ThreeParts(mem, off, off + 8, auxAt, auxAt + 16 * |c.Pairs()|);
  }

  lemma ThreeParts(s: seq<byte>, a: nat, b: nat, c: nat, d: nat)
    requires a <= b <= c <= d <= |s|
    ensures s[a..d] == s[a..b] + s[b..c] + s[c..d]
  {}

  /** Both lists, one above the other, and their strings likewise. */
  method WriteLists(mem: array<byte>, base: nat, argv: seq<CString>, envp: seq<CString>, vec: nat, strOff: nat) returns (top: nat)
    requires vec + 8 * (|argv| + 1) + 8 * (|envp| + 1) <= strOff && strOff + |Joined(argv)| + |Joined(envp)| <= mem.Length
    modifies mem
    ensures top == strOff + |Joined(argv)| + |Joined(envp)|
    ensures mem[strOff..top] == Joined(argv) + Joined(envp)
    ensures var end := vec + 8 * (|argv| + 1) + 8 * (|envp| + 1);
            mem[vec..end] == Packed(Addresses(argv, base + strOff) + [0]) + Packed(Addresses(envp, base + strOff + |Joined(argv)|) + [0])
            && OnlyIn(mem, vec, end, strOff, top)
  {
    hide Joined, Packed, Addresses;
    var mid := vec + 8 * (|argv| + 1);
    var end := mid + 8 * (|envp| + 1);
    var cursor := PlaceList(mem, base, argv, vec, strOff);
    ghost var words, text := mem[vec..mid], mem[strOff..cursor];
    top := PlaceList(mem, base, envp, mid, cursor);
    assert base + cursor == base + strOff + |Joined(argv)|;
    assert mem[vec..end] == words + mem[mid..end];
    assert mem[strOff..top] == text + mem[cursor..top];
  }

  /** The auxiliary vector above and the count below. */
  method WriteEnds(mem: array<byte>, aux: seq<Aux>, rspOff: nat, auxAt: nat, argc: nat)
    requires rspOff + 8 <= auxAt && auxAt + 16 * (|aux| + 1) <= mem.Length && |aux| < 2 * WRAP
    modifies mem
    ensures var pairs := Laid(aux + [NULL_PAIR]);
            mem[auxAt..auxAt + 16 * |pairs|] == PairBytes(pairs)
            && mem[rspOff..rspOff + 8] == Le(argc, 8)
            && OnlyIn(mem, rspOff, rspOff + 8, auxAt, auxAt + 16 * |pairs|)
  {
    hide PairBytes, Laid, Le;
    PlaceAux(mem, aux, auxAt);
    ghost var n := 16 * |Laid(aux + [NULL_PAIR])|;
    ghost var words := mem[auxAt..auxAt + n];
    StoreWord(mem, rspOff, argc);
    assert mem[auxAt..auxAt + n] == words;
  }

  /** The vector's bytes, part by part. */
  lemma VectorPacked(c: Contents, base: nat, bytes: nat)
    requires c.Fits(bytes) && c.Counted()
    ensures var at := base + c.StringsOff(bytes);
            Packed(c.Words(base, bytes)) ==
            Le(|c.argv|, 8) + (Packed(Addresses(c.argv, at) + [0]) + Packed(Addresses(c.envp, at + |Joined(c.argv)|) + [0]))
            + PairBytes(c.Pairs())
  {
    hide Joined, Packed, Addresses, AuxWords, Le, Laid;
    var at := base + c.StringsOff(bytes);
    var argv, envp := Addresses(c.argv, at) + [0], Addresses(c.envp, at + |Joined(c.argv)|) + [0];
    var aux, n := AuxWords(c.Pairs()), |c.argv|;
    assert c.Words(base, bytes) == [n] + (argv + envp) + aux;
    PackedConcat([n] + (argv + envp), aux);
    PackedConcat([n], argv + envp);
    PackedConcat(argv, envp);
    PackedOne(n);
  }
}
