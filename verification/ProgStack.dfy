/** The initial stack of section 3.4.1 of the System V AMD64 psABI: what it must hold, and how a
    program reads it back. */
module ProgStack {
  import opened Wrappers
  import opened Bytes

  /** A C string without its terminator. */
  type CString = s: seq<byte> | 0 !in s witness []

  /** One auxiliary entry. */
  datatype Aux = Aux(kind: nat, val: nat)

  // ---- the strings ----

  /** The strings one after another, each terminated. */
  function Joined(strs: seq<CString>): (s: seq<byte>)
    ensures |s| >= |strs|
  {
    if strs == [] then [] else Joined(strs[..|strs| - 1]) + (strs[|strs| - 1] + [0])
  }

  /** Where each string starts when the first is at `at`. */
  function Addresses(strs: seq<CString>, at: nat): (a: seq<nat>)
    ensures |a| == |strs|
  {
    if strs == [] then []
    else Addresses(strs[..|strs| - 1], at) + [at + |Joined(strs[..|strs| - 1])|]
  }

  /** The string at an offset, if it ends before the memory does. */
  function StringAt(mem: seq<byte>, off: nat): (s: Option<seq<byte>>)
    decreases |mem| - off
  {
    if off >= |mem| then None
    else if mem[off] == 0 then Some([])
    else match StringAt(mem, off + 1)
      case None => None
      case Some(rest) => Some([mem[off]] + rest)
  }

  lemma {:induction false} StringReads(mem: seq<byte>, off: nat, s: CString)
    requires off + |s| + 1 <= |mem| && mem[off..off + |s| + 1] == s + [0]
    ensures StringAt(mem, off) == Some(s)
    decreases |s|
  {
    assert mem[off] == mem[off..off + |s| + 1][0] == (s + [0])[0];
    if s != [] {
      assert mem[off + 1..off + |s| + 1] == (s + [0])[1..] == s[1..] + [0];
      StringReads(mem, off + 1, s[1..]);
      assert s == [s[0]] + s[1..];
    }
  }

  /** The strings at a list of addresses, in a region whose first byte is at `base`. */
  function StringsAt(mem: seq<byte>, base: nat, ptrs: seq<nat>): (r: Option<seq<seq<byte>>>) {
    if ptrs == [] then Some([])
    else
      var p := ptrs[|ptrs| - 1];
      if p < base then None
      else match (StringsAt(mem, base, ptrs[..|ptrs| - 1]), StringAt(mem, p - base))
        case (Some(before), Some(s)) => Some(before + [s])
        case _ => None
  }

  lemma JoinedLast(strs: seq<CString>)
    requires strs != []
    ensures var n := |strs| - 1; Joined(strs) == Joined(strs[..n]) + (strs[n] + [0])
    ensures var n := |strs| - 1; |Joined(strs)| == |Joined(strs[..n])| + |strs[n]| + 1
  {}

  lemma StringsLast(mem: seq<byte>, base: nat, ptrs: seq<nat>, p: nat)
    requires base <= p && StringsAt(mem, base, ptrs).Some? && StringAt(mem, p - base).Some?
    ensures StringsAt(mem, base, ptrs + [p]) == Some(StringsAt(mem, base, ptrs).value + [StringAt(mem, p - base).value])
  {
    assert (ptrs + [p])[..|ptrs|] == ptrs;
  }

  /** Where two pieces lie one after the other, each lies where it should. */
  lemma Pieces(mem: seq<byte>, off: nat, a: seq<byte>, b: seq<byte>)
    requires off + |a| + |b| <= |mem| && mem[off..off + |a| + |b|] == a + b
    ensures mem[off..off + |a|] == a && mem[off + |a|..off + |a| + |b|] == b
  {
    var part := mem[off..off + |a| + |b|];
    forall k | 0 <= k < |a| ensures mem[off + k] == a[k] { assert part[k] == mem[off + k]; }
    forall k | 0 <= k < |b| ensures mem[off + |a| + k] == b[k] { assert part[|a| + k] == mem[off + |a| + k]; }
  }

  /** Following the addresses gives the strings back. */
  lemma {:induction false} JoinedReads(mem: seq<byte>, base: nat, strs: seq<CString>, off: nat)
    requires off + |Joined(strs)| <= |mem| && mem[off..off + |Joined(strs)|] == Joined(strs)
    ensures StringsAt(mem, base, Addresses(strs, base + off)) == Some(strs)
  {
    hide Joined, StringAt, Addresses;
    if strs == [] {
      AddressesNone(base + off);
    } else {
      var n := |strs| - 1;
      LastReads(mem, off, strs);
      JoinedReads(mem, base, strs[..n], off);
      AddressesLast(strs, base + off);
      StringsLast(mem, base, Addresses(strs[..n], base + off), base + off + |Joined(strs[..n])|);
      assert strs == strs[..n] + [strs[n]];
    }
  }

  lemma AddressesNone(at: nat)
    ensures Addresses([], at) == []
  {}

  lemma AddressesLast(strs: seq<CString>, at: nat)
    requires strs != []
    ensures var n := |strs| - 1; Addresses(strs, at) == Addresses(strs[..n], at) + [at + |Joined(strs[..n])|]
  {}

  /** The strings before the last are in place, and so is the last. */
  lemma LastReads(mem: seq<byte>, off: nat, strs: seq<CString>)
    requires strs != [] && off + |Joined(strs)| <= |mem| && mem[off..off + |Joined(strs)|] == Joined(strs)
    ensures var before := Joined(strs[..|strs| - 1]);
            off + |before| <= |mem| && mem[off..off + |before|] == before
            && StringAt(mem, off + |before|) == Some(strs[|strs| - 1])
  {
    hide Joined, StringAt;
    var before, s := Joined(strs[..|strs| - 1]), strs[|strs| - 1];
    JoinedLast(strs);
    Pieces(mem, off, before, s + [0]);
    StringReads(mem, off + |before|, s);
  }

  // ---- the words ----

  /** Words in memory, little-endian. */
  function Packed(ws: seq<nat>): (s: seq<byte>)
    ensures |s| == 8 * |ws|
  {
    if ws == [] then [] else Packed(ws[..|ws| - 1]) + Le(ws[|ws| - 1], 8)
  }

  function Unpacked(s: seq<byte>): (ws: seq<nat>)
    ensures |ws| == |s| / 8
  {
    if |s| < 8 then [] else [FromLe(s[..8])] + Unpacked(s[8..])
  }

  lemma {:induction false} PackedConcat(a: seq<nat>, b: seq<nat>)
    ensures Packed(a + b) == Packed(a) + Packed(b)
  {
    hide Le;
    if b == [] {
      assert a + b == a;
    } else {
      var n := |b| - 1;
      PackedConcat(a, b[..n]);
      assert (a + b)[..|a + b| - 1] == a + b[..n];
    }
  }

  lemma {:induction false} PackedReads(ws: seq<nat>, rest: seq<byte>)
    requires forall i :: 0 <= i < |ws| ==> ws[i] < U64
    ensures Unpacked(Packed(ws) + rest) == ws + Unpacked(rest)
  {
    hide Le, FromLe, Packed, Unpacked;
    if ws == [] {
      assert Packed(ws) + rest == rest;
      assert ws + Unpacked(rest) == Unpacked(rest);
    } else {
      var w, more := ws[0], Packed(ws[1..]) + rest;
      PackedHead(ws);
      assert Packed(ws) + rest == Le(w, 8) + more;
      UnpackedHead(w, more);
      PackedReads(ws[1..], rest);
      assert ws + Unpacked(rest) == [w] + (ws[1..] + Unpacked(rest));
    }
  }

  lemma PackedHead(ws: seq<nat>)
    requires ws != []
    ensures Packed(ws) == Le(ws[0], 8) + Packed(ws[1..])
  {
    hide Le, Packed;
    assert ws == [ws[0]] + ws[1..];
    PackedConcat([ws[0]], ws[1..]);
    PackedOne(ws[0]);
  }

  lemma UnpackedHead(w: nat, more: seq<byte>)
    requires w < U64
    ensures Unpacked(Le(w, 8) + more) == [w] + Unpacked(more)
  {
    hide Le, FromLe;
    var s := Le(w, 8) + more;
    assert s[..8] == Le(w, 8) && s[8..] == more;
    WordRoundTrip(w);
  }

  lemma PackedOne(w: nat)
    ensures Packed([w]) == Le(w, 8)
  {
    hide Le;
    assert [w][..0] == [];
    assert Packed([w]) == Packed([w][..0]) + Le(w, 8);
  }

  // ---- the vectors ----

  function AuxWords(aux: seq<Aux>): (ws: seq<nat>)
    ensures |ws| == 2 * |aux|
  {
    if aux == [] then [] else AuxWords(aux[..|aux| - 1]) + [aux[|aux| - 1].kind, aux[|aux| - 1].val]
  }

  lemma {:induction false} AuxConcat(a: seq<Aux>, b: seq<Aux>)
    ensures AuxWords(a + b) == AuxWords(a) + AuxWords(b)
  {
    if b == [] {
      assert a + b == a;
    } else {
      var n := |b| - 1;
      AuxConcat(a, b[..n]);
      assert (a + b)[..|a + b| - 1] == a + b[..n];
    }
  }

  /** The pair at which the 32-bit word index `2 * i` comes back to zero. */
  const WRAP: nat := 0x8000_0000

  const NULL_PAIR := Aux(0, 0)

  /** What a list of pairs looks like once stored in order, each at its index in 32-bit arithmetic:
      from the wrap on they overwrite the first ones. */
  function Laid(pairs: seq<Aux>): (r: seq<Aux>)
    requires |pairs| <= 2 * WRAP
    ensures |r| == if |pairs| <= WRAP then |pairs| else WRAP
  {
    if |pairs| <= WRAP then pairs else pairs[WRAP..] + pairs[|pairs| - WRAP..WRAP]
  }

  /** The pairs a reader finds of those that were stored. */
  function Found(aux: seq<Aux>): (r: seq<Aux>)
    ensures r == aux <==> |aux| < WRAP
    ensures |aux| == WRAP ==> r == []
  {
    if |aux| < WRAP then aux else aux[WRAP..]
  }

  /** The terminator comes right after the pairs that are found. */
  lemma LaidIs(aux: seq<Aux>) returns (rest: seq<Aux>)
    requires |aux| < 2 * WRAP
    ensures Laid(aux + [NULL_PAIR]) == Found(aux) + [NULL_PAIR] + rest
  {
    var pairs := aux + [NULL_PAIR];
    if |aux| < WRAP {
      rest := [];
      assert pairs == aux + [NULL_PAIR] + [];
    } else {
      rest := pairs[|pairs| - WRAP..WRAP];
      assert pairs[WRAP..] == aux[WRAP..] + [NULL_PAIR];
    }
  }

  /** One more pair stored: appended, or over the one it wraps onto. */
  lemma LaidNext(pairs: seq<Aux>, i: nat)
    requires i < |pairs| <= 2 * WRAP
    ensures var L := Laid(pairs[..i]);
            if i < WRAP then i == |L| && Laid(pairs[..i + 1]) == L + [pairs[i]]
            else i - WRAP < |L| && Laid(pairs[..i + 1]) == L[i - WRAP := pairs[i]]
  {
    if i < WRAP {
      assert pairs[..i + 1] == pairs[..i] + [pairs[i]];
    } else {
      hide Laid;
      var L, L' := Laid(pairs[..i]), Laid(pairs[..i + 1]);
      forall k | 0 <= k < WRAP ensures L'[k] == L[i - WRAP := pairs[i]][k] {
        LaidAt(pairs[..i], k);
        LaidAt(pairs[..i + 1], k);
      }
      assert L' == L[i - WRAP := pairs[i]];
    }
  }

  lemma LaidAt(pairs: seq<Aux>, k: nat)
    requires |pairs| <= 2 * WRAP && k < |Laid(pairs)|
    ensures k < |pairs| && Laid(pairs)[k] == if WRAP + k < |pairs| then pairs[WRAP + k] else pairs[k]
  {}

  lemma AuxOne(a: Aux)
    ensures AuxWords([a]) == [a.kind, a.val]
  {
    assert [a][..0] == [];
    assert AuxWords([a]) == AuxWords([a][..0]) + [a.kind, a.val];
  }

  /** Everything from the stack pointer up to the padding, its pairs as they lie in memory. */
  function Vector(argv: seq<nat>, envp: seq<nat>, pairs: seq<Aux>): (ws: seq<nat>)
    ensures |ws| == 1 + |argv| + 1 + |envp| + 1 + 2 * |pairs|
  {
    [|argv|] + argv + [0] + envp + [0] + AuxWords(pairs)
  }

  /** The next null word. */
  function NullFrom(ws: seq<nat>, i: nat): (e: Option<nat>)
    ensures e.Some? ==> i <= e.value < |ws| && ws[e.value] == 0 && forall k :: i <= k < e.value ==> ws[k] != 0
    ensures e.None? ==> forall k :: i <= k < |ws| ==> ws[k] != 0
    decreases |ws| - i
  {
    if i >= |ws| then None else if ws[i] == 0 then Some(i) else NullFrom(ws, i + 1)
  }

  /** Pairs up to the one whose type is null. */
  function PairsFrom(ws: seq<nat>, i: nat): (r: Option<seq<Aux>>)
    decreases |ws| - i
  {
    if i >= |ws| then None
    else if ws[i] == 0 then Some([])
    else if i + 1 >= |ws| then None
    else match PairsFrom(ws, i + 2)
      case None => None
      case Some(rest) => Some([Aux(ws[i], ws[i + 1])] + rest)
  }

  /** What a program finds by walking up from its stack pointer. */
  datatype Start = Start(argv: seq<nat>, envp: seq<nat>, aux: seq<Aux>)

  function Walk(ws: seq<nat>): (r: Option<Start>) {
    if |ws| == 0 || ws[0] + 2 > |ws| || NullFrom(ws, 1) != Some(ws[0] + 1) then None
    else match NullFrom(ws, ws[0] + 2)
      case None => None
      case Some(e) => match PairsFrom(ws, e + 1)
        case None => None
        case Some(aux) => Some(Start(ws[1..ws[0] + 1], ws[ws[0] + 2..e], aux))
  }

  ghost predicate NoNull(ws: seq<nat>) {
    forall i :: 0 <= i < |ws| ==> ws[i] != 0
  }

  ghost predicate Named(aux: seq<Aux>) {
    forall i :: 0 <= i < |aux| ==> aux[i].kind != 0
  }

  lemma {:induction false} PairsRead(ws: seq<nat>, aux: seq<Aux>, i: nat)
    requires Named(aux) && i + 2 * |aux| < |ws| && ws[i + 2 * |aux|] == 0
    requires ws[i..i + 2 * |aux|] == AuxWords(aux)
    ensures PairsFrom(ws, i) == Some(aux)
    decreases |aux|
  {
    if aux != [] {
      AuxHead(aux);
      assert ws[i] == AuxWords(aux)[0] && ws[i + 1] == AuxWords(aux)[1];
      assert ws[i + 2..i + 2 + 2 * |aux[1..]|] == AuxWords(aux)[2..];
      PairsRead(ws, aux[1..], i + 2);
      assert aux == [aux[0]] + aux[1..];
    }
  }

  lemma {:induction false} AuxHead(aux: seq<Aux>)
    requires aux != []
    ensures AuxWords(aux) == [aux[0].kind, aux[0].val] + AuxWords(aux[1..])
  {
    var n := |aux| - 1;
    if n > 0 {
      AuxHead(aux[..n]);
      assert aux[..n][1..] == aux[1..][..n - 1];
    }
  }

  lemma NullIs(ws: seq<nat>, i: nat, e: nat)
    requires i <= e < |ws| && ws[e] == 0 && forall k :: i <= k < e ==> ws[k] != 0
    ensures NullFrom(ws, i) == Some(e)
  {}

  /** Walking a vector gives back what it was made of, up to its first null pair, whatever lies above. */
  lemma VectorReads(argv: seq<nat>, envp: seq<nat>, aux: seq<Aux>, rest: seq<Aux>, above: seq<nat>)
    requires NoNull(argv) && NoNull(envp) && Named(aux)
    ensures Walk(Vector(argv, envp, aux + [NULL_PAIR] + rest) + above) == Some(Start(argv, envp, aux))
  {
    hide AuxWords, NullFrom, PairsFrom, Vector;
    var words := AuxWords(aux + [NULL_PAIR] + rest);
    var ws, tail := Vector(argv, envp, aux + [NULL_PAIR] + rest) + above, words + above;
    var e := |argv| + 2 + |envp|;
    VectorHead(argv, envp, aux + [NULL_PAIR] + rest, above);
    NullPairAfter(aux, rest);
    assert tail[..2 * |aux|] == words[..2 * |aux|];
    assert ws[e + 1..e + 1 + 2 * |aux|] == tail[..2 * |aux|] && ws[e + 1 + 2 * |aux|] == tail[2 * |aux|];
    PairsRead(ws, aux, e + 1);
  }

  /** The two lists of pointers end where they should, and the pairs follow. */
  lemma VectorHead(argv: seq<nat>, envp: seq<nat>, pairs: seq<Aux>, above: seq<nat>)
    requires NoNull(argv) && NoNull(envp)
    ensures var ws, n := Vector(argv, envp, pairs) + above, |argv|;
            var e := n + 2 + |envp|;
            e < |ws| && ws[0] == n && NullFrom(ws, 1) == Some(n + 1) && NullFrom(ws, n + 2) == Some(e)
            && ws[1..n + 1] == argv && ws[n + 2..e] == envp && ws[e + 1..] == AuxWords(pairs) + above
  {
    hide AuxWords, NullFrom;
    var ws := Vector(argv, envp, pairs) + above;
    var e := |argv| + 2 + |envp|;
    forall k | 1 <= k < |argv| + 1 ensures ws[k] != 0 { assert ws[k] == argv[k - 1]; }
    NullIs(ws, 1, |argv| + 1);
    forall k | |argv| + 2 <= k < e ensures ws[k] != 0 { assert ws[k] == envp[k - |argv| - 2]; }
    NullIs(ws, |argv| + 2, e);
  }

  lemma NullPairAfter(aux: seq<Aux>, rest: seq<Aux>)
    ensures var words := AuxWords(aux + [NULL_PAIR] + rest);
            words[..2 * |aux|] == AuxWords(aux) && words[2 * |aux|] == 0
  {
    AuxConcat(aux + [NULL_PAIR], rest);
    AuxConcat(aux, [NULL_PAIR]);
    AuxOne(NULL_PAIR);
  }
}
