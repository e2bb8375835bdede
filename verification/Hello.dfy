/** The program that reads its initial stack and reports what it found as its exit status. */
module Hello {
  import opened Wrappers
  import opened Bytes
  import opened ProgStack
  import opened StackBuilder

  const AT_PAGESZ := 6
  const AT_IRIS_OBJC := 0x49520001
  const AT_IRIS_UNTYPED := 0x49520003

  const HELLO_OK := 42
  const BAD_ARGC := 1
  const BAD_ARGV := 2
  const BAD_ENVP := 3
  const NO_PAGESZ := 4
  const BAD_PAGESZ := 5
  const NO_IRIS_AUX := 6
  const BAD_UNTYPED := 7

  /** How many arguments it takes, and how many environment strings: one more than the bound named
      in its loop, which is tested before counting. */
  const MOST_ARGS := 64
  const MOST_ENVS := 65

  predicate Wrong(a: Aux) {
    (a.kind == AT_PAGESZ && a.val != 4096) || (a.kind == AT_IRIS_UNTYPED && a.val != 12)
  }

  function Complaint(a: Aux): int {
    if a.kind == AT_PAGESZ then BAD_PAGESZ else BAD_UNTYPED
  }

  predicate Has(aux: seq<Aux>, kind: nat) {
    exists i :: 0 <= i < |aux| && aux[i].kind == kind
  }

  /** The status an auxiliary vector deserves: the first wrong entry, else what is missing. */
  ghost predicate Deserves(aux: seq<Aux>, code: int) {
    if exists i :: FirstWrong(aux, i) then exists i :: FirstWrong(aux, i) && code == Complaint(aux[i])
    else if !Has(aux, AT_PAGESZ) then code == NO_PAGESZ
    else if !Has(aux, AT_IRIS_OBJC) || !Has(aux, AT_IRIS_UNTYPED) then code == NO_IRIS_AUX
    else code == HELLO_OK
  }

  ghost predicate FirstWrong(aux: seq<Aux>, i: int) {
    0 <= i < |aux| && Wrong(aux[i]) && forall k :: 0 <= k < i ==> !Wrong(aux[k])
  }

  /** No null among the arguments, and one after them. */
  predicate ArgvSound(ws: seq<nat>)
    requires |ws| > 0
  {
    NullFrom(ws, 1) == Some(ws[0] + 1)
  }

  /** More environment strings than it takes. */
  predicate TooMany(ws: seq<nat>, p: nat) {
    p + MOST_ENVS < |ws| && forall k :: p <= k < p + MOST_ENVS + 1 ==> ws[k] != 0
  }

  /** The pairs that are looked at: up to the null one, or up to and with the first wrong one. */
  function Scan(ws: seq<nat>, i: nat): (r: Option<seq<Aux>>)
    decreases |ws| - i
  {
    if i >= |ws| then None
    else if ws[i] == 0 then Some([])
    else if i + 1 >= |ws| then None
    else if Wrong(Aux(ws[i], ws[i + 1])) then Some([Aux(ws[i], ws[i + 1])])
    else match Scan(ws, i + 2)
      case None => None
      case Some(rest) => Some([Aux(ws[i], ws[i + 1])] + rest)
  }

  /** Every word the walk looks at is there to be read. */
  predicate Readable(ws: seq<nat>) {
    |ws| > 0 && (1 <= ws[0] <= MOST_ARGS ==> NullBefore(ws, ws[0]) || (ws[0] + 1 < |ws| && (ArgvSound(ws) ==> RestReadable(ws, ws[0] + 2))))
  }

  /** A null among the arguments: the walk stops there. */
  predicate NullBefore(ws: seq<nat>, argc: nat) {
    NullFrom(ws, 1).Some? && NullFrom(ws, 1).value <= argc
  }

  predicate RestReadable(ws: seq<nat>, p: nat) {
    TooMany(ws, p) || (NullFrom(ws, p).Some? && Scan(ws, NullFrom(ws, p).value + 1).Some?)
  }

  /** The walk. The status is decided by the count, then the arguments, then how long the
      environment is, and then by the auxiliary pairs it looks at. */
  method HelloMain(ws: seq<nat>) returns (code: int)
    requires Readable(ws)
    ensures code == BAD_ARGC <==> ws[0] < 1 || ws[0] > MOST_ARGS
    ensures code != BAD_ARGC ==> (code == BAD_ARGV <==> !ArgvSound(ws))
    ensures code != BAD_ARGC && code != BAD_ARGV ==> (code == BAD_ENVP <==> TooMany(ws, ws[0] + 2))
    ensures code != BAD_ARGC && code != BAD_ARGV && code != BAD_ENVP ==>
              Deserves(Scan(ws, NullFrom(ws, ws[0] + 2).value + 1).value, code)
  {
    hide Scan, NullFrom, Deserves;
    var argc := ws[0];
    if argc < 1 || argc > 64 { return BAD_ARGC; }
    for i := 0 to argc
      invariant i < |ws| && forall k :: 1 <= k < i + 1 ==> ws[k] != 0
    {
      if ws[1 + i] == 0 { return BAD_ARGV; }
    }
    if ws[1 + argc] != 0 { return BAD_ARGV; }
    NullIs(ws, 1, argc + 1);
    code := CheckRest(ws, argc + 2);
  }

  /** The environment, counted, and then the pairs. */
  method CheckRest(ws: seq<nat>, p: nat) returns (code: int)
    requires RestReadable(ws, p)
    ensures code !in {BAD_ARGC, BAD_ARGV} && (code == BAD_ENVP <==> TooMany(ws, p))
    ensures code != BAD_ENVP ==> Deserves(Scan(ws, NullFrom(ws, p).value + 1).value, code)
  {
    hide Scan, NullFrom, Deserves;
    var envc := 0;
    while ws[p + envc] != 0
      invariant envc <= 65 && p + envc < |ws|
      invariant forall k :: p <= k < p + envc ==> ws[k] != 0
      decreases |ws| - envc
    {
      if envc > 64 { return BAD_ENVP; }
      envc := envc + 1;
    }
    NullIs(ws, p, p + envc);
    code := CheckAux(ws, p + envc + 1);
  }

  /** The loop over the auxiliary pairs. */
  method CheckAux(ws: seq<nat>, from: nat) returns (code: int)
    requires Scan(ws, from).Some?
    ensures Deserves(Scan(ws, from).value, code) && code !in {BAD_ARGC, BAD_ARGV, BAD_ENVP}
  {
    ghost var aux, n := Scan(ws, from).value, 0;
    var p, pagesz, objc, untyped := from, false, false, false;
    while ws[p] != 0
      invariant 0 <= n <= |aux| && Scan(ws, p) == Some(aux[n..]) && p < |ws|
      invariant forall k :: 0 <= k < n ==> !Wrong(aux[k])
      invariant pagesz == Has(aux[..n], AT_PAGESZ)
      invariant objc == Has(aux[..n], AT_IRIS_OBJC)
      invariant untyped == Has(aux[..n], AT_IRIS_UNTYPED)
      decreases |ws| - p
    {
      var a := Aux(ws[p], ws[p + 1]);
      assert a == aux[n..][0] == aux[n] && aux[n..][1..] == aux[n + 1..];
      HasNext(aux, n, AT_PAGESZ);
      HasNext(aux, n, AT_IRIS_OBJC);
      HasNext(aux, n, AT_IRIS_UNTYPED);
      if a.kind == AT_PAGESZ {
        pagesz := true;
        if a.val != 4096 { assert FirstWrong(aux, n); return BAD_PAGESZ; }
      } else if a.kind == AT_IRIS_OBJC {
        objc := true;
      } else if a.kind == AT_IRIS_UNTYPED {
        untyped := true;
        if a.val != 12 { assert FirstWrong(aux, n); return BAD_UNTYPED; }
      }
      n, p := n + 1, p + 2;
    }
    assert aux[..n] == aux;
    if !pagesz { return NO_PAGESZ; }
    if !objc || !untyped { return NO_IRIS_AUX; }
    return HELLO_OK;
  }

  lemma HasNext(aux: seq<Aux>, n: nat, kind: nat)
    requires n < |aux|
    ensures Has(aux[..n + 1], kind) == (Has(aux[..n], kind) || aux[n].kind == kind)
  {
    assert aux[..n + 1] == aux[..n] + [aux[n]];
    if Has(aux[..n], kind) {
      var i :| 0 <= i < n && aux[..n][i].kind == kind;
      assert aux[..n + 1][i].kind == kind;
    }
    if aux[n].kind == kind { assert aux[..n + 1][n].kind == kind; }
  }

  /** Every list of pairs deserves one status, and only one. */
  lemma DeservesOne(aux: seq<Aux>, a: int, b: int)
    requires Deserves(aux, a) && Deserves(aux, b)
    ensures a == b
  {
    if i :| FirstWrong(aux, i) {
      var j :| FirstWrong(aux, j) && a == Complaint(aux[j]);
      var k :| FirstWrong(aux, k) && b == Complaint(aux[k]);
      assert j == k;
    }
  }

  lemma DeservesSome(aux: seq<Aux>) returns (code: int)
    ensures Deserves(aux, code)
  {
    if i :| FirstWrong(aux, i) {
      code := Complaint(aux[i]);
    } else {
      code := if !Has(aux, AT_PAGESZ) then NO_PAGESZ
              else if !Has(aux, AT_IRIS_OBJC) || !Has(aux, AT_IRIS_UNTYPED) then NO_IRIS_AUX else HELLO_OK;
    }
  }

  /** What is looked at is a beginning of the pairs, and stops short only at a wrong one. */
  lemma {:induction false} ScanIs(ws: seq<nat>, i: nat)
    requires PairsFrom(ws, i).Some?
    ensures Scan(ws, i).Some?
    ensures var scan, aux := Scan(ws, i).value, PairsFrom(ws, i).value;
            scan <= aux && (forall k :: 0 <= k < |scan| - 1 ==> !Wrong(scan[k]))
            && (scan != aux ==> scan != [] && Wrong(scan[|scan| - 1]))
    decreases |ws| - i
  {
    if ws[i] != 0 && !Wrong(Aux(ws[i], ws[i + 1])) { ScanIs(ws, i + 2); }
  }

  lemma ScanDeserves(scan: seq<Aux>, aux: seq<Aux>, code: int)
    requires scan <= aux && (forall k :: 0 <= k < |scan| - 1 ==> !Wrong(scan[k]))
    requires scan != aux ==> scan != [] && Wrong(scan[|scan| - 1])
    requires Deserves(scan, code)
    ensures Deserves(aux, code)
  {
    if scan != aux {
      var n := |scan| - 1;
      assert FirstWrong(scan, n);
      var i :| FirstWrong(scan, i) && code == Complaint(scan[i]);
      assert FirstWrong(aux, i);
    }
  }

  /** So the status is the one all the pairs deserve. */
  lemma ScanOfPairs(ws: seq<nat>, i: nat, code: int)
    requires PairsFrom(ws, i).Some?
    ensures Scan(ws, i).Some? && (Deserves(Scan(ws, i).value, code) <==> Deserves(PairsFrom(ws, i).value, code))
  {
    hide Scan, PairsFrom, Deserves;
    ScanIs(ws, i);
    var scan, aux := Scan(ws, i).value, PairsFrom(ws, i).value;
    var c := DeservesSome(scan);
    ScanDeserves(scan, aux, c);
    if Deserves(aux, code) { DeservesOne(aux, code, c); }
    if Deserves(scan, code) { ScanDeserves(scan, aux, code); }
  }

  /** A built stack is readable, and the program's status depends on what was put on it: the two
      counts and the pairs that can be found. */
  lemma BuiltReadable(mem: seq<byte>, base: nat, c: Contents)
    requires Built(mem, base, c) && c.AuxValid() && 0 < base && base + |mem| <= U64
    ensures var ws := Unpacked(mem[c.PointerOff(|mem|)..]);
            Readable(ws) && ws[0] == |c.argv| && ArgvSound(ws)
            && NullFrom(ws, ws[0] + 2) == Some(ws[0] + 2 + |c.envp|)
            && PairsFrom(ws, ws[0] + 3 + |c.envp|) == Some(Found(c.aux))
            && (TooMany(ws, ws[0] + 2) <==> |c.envp| > MOST_ENVS)
  {
    hide Joined, Addresses, AuxWords, Packed, Unpacked, StringsAt, Scan, PairsFrom, NullFrom, Found, Laid, Contents.PointerOff, Contents.StringsOff;
    BuiltReads(mem, base, c);
    var ws := Unpacked(mem[c.PointerOff(|mem|)..]);
    var start := Walk(ws).value;
    StringsCount(mem, base, start.argv);
    StringsCount(mem, base, start.envp);
    ScanOfPairs(ws, ws[0] + 3 + |c.envp|, 0);
  }

  lemma {:induction false} StringsCount(mem: seq<byte>, base: nat, ptrs: seq<nat>)
    ensures var r := StringsAt(mem, base, ptrs); r.Some? ==> |r.value| == |ptrs|
  {
    if ptrs != [] { StringsCount(mem, base, ptrs[..|ptrs| - 1]); }
  }

  function Given(strs: seq<CString>): (r: seq<Option<CString>>)
    ensures |r| == |strs| && Present(r) && Texts(r) == strs
  {
    seq(|strs|, i requires 0 <= i < |strs| => Some(strs[i]))
  }

  /** Build a stack, then run the program on it. */
  method SpawnHello(mem: array<byte>, base: nat, c: Contents) returns (code: int)
    requires base > 0 && base % 16 == 0 && base + mem.Length <= U64 && c.AuxValid() && c.Counted() && c.Fits(mem.Length)
    modifies mem
    ensures code == BAD_ARGC <==> |c.argv| < 1 || |c.argv| > MOST_ARGS
    ensures code != BAD_ARGC ==> code != BAD_ARGV && (code == BAD_ENVP <==> |c.envp| > MOST_ENVS)
    ensures code != BAD_ARGC && code != BAD_ENVP ==> Deserves(Found(c.aux), code)
  {
    hide Built, Deserves, Readable, NullFrom, PairsFrom, Joined, Packed, Unpacked, ArgvSound, TooMany, Scan, Found, Laid,
      Given, Texts, Present, Contents.PointerOff, Contents.StringsOff, Contents.Fits, Contents.Words;
    var argv, envp := Given(c.argv), Given(c.envp);
    assert argv[..|argv|] == argv && envp[..|envp|] == envp && c.aux[..|c.aux|] == c.aux;
    TakenAll(c);
    var sp := Build(mem, base, Some(argv), |argv|, Some(envp), |envp|, Some(c.aux), |c.aux|);
    BuiltReadable(mem[..], base, c);
    ghost var ws := Unpacked(mem[..][sp - base..]);
    code := HelloMain(Unpacked(mem[..][sp - base..]));
    ScanOfPairs(ws, ws[0] + 3 + |c.envp|, code);
  }

  lemma TakenAll(c: Contents)
    ensures Contents(Texts(Taken(Some(Given(c.argv)), |c.argv|)), Texts(Taken(Some(Given(c.envp)), |c.envp|)), Taken(Some(c.aux), |c.aux|)) == c
    ensures Present(Taken(Some(Given(c.argv)), |c.argv|)) && Present(Taken(Some(Given(c.envp)), |c.envp|))
  {
    hide Given, Texts;
    var argv, envp := Given(c.argv), Given(c.envp);
    TakenWhole(argv);
    TakenWhole(envp);
    TakenWhole(c.aux);
  }

  lemma TakenWhole<T>(s: seq<T>)
    ensures Taken(Some(s), |s|) == s
  {}
}
