/** A small filesystem on sectors: a superblock, one directory sector, one sector per file.

    A sector write is one atomic step. A crash, or a write the disk reports as failed, leaves the
    disk after some prefix of the steps an operation would have made.
 */
module FileSystem {
  import opened Wrappers
  import opened Bytes

  const MAGIC: nat := 0x53464953495253
  const VERSION: nat := 1
  const MAX_FILES: nat := 16
  const SECTOR: nat := 512
  const DIR_LBA: nat := 1
  const DATA_LBA: nat := 16
  const NAME_BYTES: nat := 16
  const ENTRY: nat := 32
  const SUPER_BYTES: nat := 24
  const SCRATCH_OFF: nat := 496
  const SCRATCH_TOKEN: nat := 0x4B4F2D544D462D53

  type Sector = seq<byte>
  type Disk = seq<Sector>

  ghost predicate Shaped(d: Disk) {
    |d| >= DATA_LBA + MAX_FILES && forall i :: 0 <= i < |d| ==> |d[i]| == SECTOR
  }

  // ── the directory ──────────────────────────────────────────────────────────

  function EntryName(dir: Sector, i: nat): (s: seq<byte>)
    requires |dir| == SECTOR && i < MAX_FILES
    ensures |s| == NAME_BYTES
  {
    dir[ENTRY * i..ENTRY * i + NAME_BYTES]
  }

  function EntrySize(dir: Sector, i: nat): nat
    requires |dir| == SECTOR && i < MAX_FILES
  {
    FromLe(dir[ENTRY * i + NAME_BYTES..ENTRY * i + NAME_BYTES + 4])
  }

  predicate Used(dir: Sector, i: nat)
    requires |dir| == SECTOR && i < MAX_FILES
  {
    EntrySize(dir, i) != 0
  }

  predicate Holds(dir: Sector, i: nat, name: seq<byte>)
    requires |dir| == SECTOR && i < MAX_FILES
  {
    Used(dir, i) && EntryName(dir, i) == name
  }

  /** The sector with one entry's name and size replaced. */
  function SetEntry(dir: Sector, i: nat, name: seq<byte>, size: nat): (r: Sector)
    requires |dir| == SECTOR && i < MAX_FILES && |name| == NAME_BYTES
    ensures |r| == SECTOR
  {
    dir[..ENTRY * i] + name + Le(size, 4) + dir[ENTRY * i + NAME_BYTES + 4..]
  }

  /** Bytes outside the entry's name and size are kept. */
  lemma SetEntryKeeps(dir: Sector, i: nat, name: seq<byte>, size: nat, x: nat)
    requires |dir| == SECTOR && i < MAX_FILES && |name| == NAME_BYTES
    requires x < ENTRY * i || ENTRY * i + NAME_BYTES + 4 <= x < SECTOR
    ensures SetEntry(dir, i, name, size)[x] == dir[x]
  {}

  lemma SetEntryReads(dir: Sector, i: nat, name: seq<byte>, size: nat, j: nat)
    requires |dir| == SECTOR && i < MAX_FILES && j < MAX_FILES && |name| == NAME_BYTES && size <= SECTOR
    ensures var r := SetEntry(dir, i, name, size);
            && EntryName(r, j) == (if j == i then name else EntryName(dir, j))
            && EntrySize(r, j) == (if j == i then size else EntrySize(dir, j))
  {
    hide Le, FromLe, Pow256;
    var r := SetEntry(dir, i, name, size);
    var a, b := ENTRY * j, ENTRY * j + NAME_BYTES;
    if j == i {
      assert r[a..b] == name;
      assert r[b..b + 4] == Le(size, 4);
      LeRoundTrip(size, 4);
      Pow256Eight();
    } else {
      forall x: nat | a <= x < b + 4 ensures r[x] == dir[x] { SetEntryKeeps(dir, i, name, size, x); }
      assert r[a..b] == dir[a..b];
      assert r[b..b + 4] == dir[b..b + 4];
    }
  }

  /** How many of the first `n` entries are used. */
  function UsedCount(dir: Sector, n: nat): nat
    requires |dir| == SECTOR && n <= MAX_FILES
  {
    if n == 0 then 0 else UsedCount(dir, n - 1) + if Used(dir, n - 1) then 1 else 0
  }

  lemma {:induction false} UsedCountIs(dir: Sector, n: nat)
    requires |dir| == SECTOR && n <= MAX_FILES
    ensures UsedCount(dir, n) == |set i: nat | i < n && EntrySize(dir, i) != 0|
  {
    hide EntrySize;
    var S := set i: nat | i < n && EntrySize(dir, i) != 0;
    if n == 0 {
      assert S == {};
    } else {
      UsedCountIs(dir, n - 1);
      var T := set i: nat | i < n - 1 && EntrySize(dir, i) != 0;
      assert S == if EntrySize(dir, n - 1) != 0 then T + {n - 1} else T;
    }
  }

  ghost predicate Full(dir: Sector)
    requires |dir| == SECTOR
  {
    forall i: nat :: i < MAX_FILES ==> Used(dir, i)
  }

  /** Used names are unique. */
  ghost predicate Unique(dir: Sector)
    requires |dir| == SECTOR
  {
    forall i: nat, j: nat ::
      (i < MAX_FILES && j < MAX_FILES && Used(dir, i) && Used(dir, j) && EntryName(dir, i) == EntryName(dir, j))
      ==> i == j
  }

  ghost predicate WellFormed(d: Disk) {
    Shaped(d) && Unique(d[DIR_LBA])
  }

  /** The first entry from `i` on that holds a name. */
  function FindFrom(dir: Sector, name: seq<byte>, i: nat): (r: Option<nat>)
    requires |dir| == SECTOR && i <= MAX_FILES
    ensures r.Some? ==> i <= r.value < MAX_FILES && Holds(dir, r.value, name) && forall j: nat :: i <= j < r.value ==> !Holds(dir, j, name)
    ensures r.None? ==> forall j: nat :: i <= j < MAX_FILES ==> !Holds(dir, j, name)
    decreases MAX_FILES - i
  {
    if i == MAX_FILES then None else if Holds(dir, i, name) then Some(i) else FindFrom(dir, name, i + 1)
  }

  /** The entry a name is found at: the first that holds it. */
  function Find(dir: Sector, name: seq<byte>): (r: Option<nat>)
    requires |dir| == SECTOR
    ensures r.Some? ==> r.value < MAX_FILES && Holds(dir, r.value, name) && forall j: nat :: j < r.value ==> !Holds(dir, j, name)
    ensures r.None? ==> forall i: nat :: i < MAX_FILES ==> !Holds(dir, i, name)
  {
    FindFrom(dir, name, 0)
  }

  /** Where names are unique it is the only one. */
  lemma FindIs(dir: Sector, i: nat, name: seq<byte>)
    requires |dir| == SECTOR && Unique(dir) && i < MAX_FILES && Holds(dir, i, name)
    ensures Find(dir, name) == Some(i)
  {
    hide FindFrom;
  }

  datatype File = File(size: nat, sector: Sector)

  /** What reading a name answers: its size and the sector the client is shown. */
  function Read(d: Disk, name: seq<byte>): Option<File>
    requires Shaped(d)
  {
    match Find(d[DIR_LBA], name)
    case None => None
    case Some(i) =>
      var size := EntrySize(d[DIR_LBA], i);
      if 0 < size <= SECTOR then Some(File(size, d[DATA_LBA + i])) else None
  }

  /** An entry as bytes: thirty-two of them, a name of sixteen and a little-endian size that is not zero. */
  ghost predicate EntryIs(d: Disk, i: nat, name: seq<byte>)
    requires Shaped(d) && i < 16
  {
    d[1][32 * i..32 * i + 16] == name && FromLe(d[1][32 * i + 16..32 * i + 20]) != 0
  }

  /** Where a name is read from: the first entry of sector 1 that has it, the size there, and the sector
      sixteen places on; nothing for a size over 512 or a name that is not there. */
  lemma ReadIs(d: Disk, i: nat, name: seq<byte>)
    requires Shaped(d) && i <= 16 && (i < 16 ==> EntryIs(d, i, name)) && forall j: nat :: j < i ==> !EntryIs(d, j, name)
    ensures i == 16 ==> Read(d, name) == None
    ensures i < 16 ==>
              var size := FromLe(d[1][32 * i + 16..32 * i + 20]);
              Read(d, name) == if size <= 512 then Some(File(size, d[16 + i])) else None
  {
    hide FromLe, FindFrom;
    forall j: nat | j < 16 ensures Holds(d[DIR_LBA], j, name) <==> EntryIs(d, j, name) {}
  }

  // ── writing ────────────────────────────────────────────────────────────────

  datatype Step = Step(lba: nat, sector: Sector)

  /** The disk after a list of sector writes. */
  function Apply(d: Disk, steps: seq<Step>): Disk
    requires forall i :: 0 <= i < |steps| ==> steps[i].lba < |d|
    decreases |steps|
  {
    if steps == [] then d else Apply(d[steps[0].lba := steps[0].sector], steps[1..])
  }

  function Padded(data: seq<byte>): (s: Sector)
    requires |data| <= SECTOR
    ensures |s| == SECTOR && s[..|data|] == data && forall i :: |data| <= i < SECTOR ==> s[i] == 0
  {
    data + Zeros(SECTOR - |data|)
  }

  /** The name two request words carry. */
  function NamePack(w0: nat, w1: nat): (s: seq<byte>)
    ensures |s| == NAME_BYTES
  {
    Le(w0, 8) + Le(w1, 8)
  }

  /** Different words are different names. */
  lemma NamePackInjective(w0: nat, w1: nat, v0: nat, v1: nat)
    requires w0 < Pow256(8) && w1 < Pow256(8) && v0 < Pow256(8) && v1 < Pow256(8)
    requires NamePack(w0, w1) == NamePack(v0, v1)
    ensures w0 == v0 && w1 == v1
  {
    hide Le;
    assert NamePack(w0, w1)[..8] == Le(w0, 8) && NamePack(w0, w1)[8..] == Le(w1, 8);
    assert NamePack(v0, v1)[..8] == Le(v0, 8) && NamePack(v0, v1)[8..] == Le(v1, 8);
    LeInjective(w0, v0, 8);
    LeInjective(w1, v1, 8);
  }

  /** Where a name goes: its own entry, or a free one. */
  ghost predicate Target(dir: Sector, name: seq<byte>, slot: nat)
    requires |dir| == SECTOR
  {
    slot < MAX_FILES && (Holds(dir, slot, name) || (Find(dir, name).None? && !Used(dir, slot)))
  }

  /** The contents first, the directory second. */
  function WriteSteps(d: Disk, slot: nat, name: seq<byte>, data: seq<byte>): (s: seq<Step>)
    requires |d| > DIR_LBA && |d[DIR_LBA]| == SECTOR && slot < MAX_FILES && |name| == NAME_BYTES && |data| <= SECTOR
    ensures |s| == 2 && forall i :: 0 <= i < |s| ==> s[i].lba < DATA_LBA + MAX_FILES
  {
    [Step(DATA_LBA + slot, Padded(data)), Step(DIR_LBA, SetEntry(d[DIR_LBA], slot, name, |data|))]
  }

  ghost function AfterWrite(d: Disk, slot: nat, name: seq<byte>, data: seq<byte>, k: nat): Disk
    requires Shaped(d) && slot < MAX_FILES && |name| == NAME_BYTES && |data| <= SECTOR && k <= 2
  {
    Apply(d, WriteSteps(d, slot, name, data)[..k])
  }

  /** `d'` is `d` after some prefix of the writes. */
  ghost predicate SomePrefix(d: Disk, d': Disk, slot: nat, name: seq<byte>, data: seq<byte>)
    requires Shaped(d) && slot < MAX_FILES && |name| == NAME_BYTES && |data| <= SECTOR
  {
    exists k: nat :: k <= 2 && d' == AfterWrite(d, slot, name, data, k)
  }

  lemma AfterWriteIs(d: Disk, slot: nat, name: seq<byte>, data: seq<byte>, k: nat)
    requires Shaped(d) && slot < MAX_FILES && |name| == NAME_BYTES && |data| <= SECTOR && k <= 2
    ensures var d' := AfterWrite(d, slot, name, data, k);
            && d' == (if k == 0 then d
                      else if k == 1 then d[DATA_LBA + slot := Padded(data)]
                      else d[DATA_LBA + slot := Padded(data)][DIR_LBA := SetEntry(d[DIR_LBA], slot, name, |data|)])
            && Shaped(d')
  {
    var s := WriteSteps(d, slot, name, data);
    assert s[..1] == [s[0]] && s[..2] == s && s[1..] == [s[1]] && s[..0] == [] && [s[1]][1..] == [] && [s[0]][1..] == [];
    var d1 := d[s[0].lba := s[0].sector];
    assert Apply(d, [s[0]]) == Apply(d1, []) == d1;
    assert Apply(d, s) == Apply(d1, [s[1]]) == Apply(d1[s[1].lba := s[1].sector], []);
  }

  /** After any prefix of the writes the directory is still well formed. */
  lemma WriteKeepsWellFormed(d: Disk, slot: nat, name: seq<byte>, data: seq<byte>, k: nat)
    requires WellFormed(d) && |name| == NAME_BYTES && 0 < |data| <= SECTOR && k <= 2 && Target(d[DIR_LBA], name, slot)
    ensures WellFormed(AfterWrite(d, slot, name, data, k))
  {
    AfterWriteIs(d, slot, name, data, k);
    var dir, dir' := d[DIR_LBA], SetEntry(d[DIR_LBA], slot, name, |data|);
    forall i: nat, j: nat | i < MAX_FILES && j < MAX_FILES && Used(dir', i) && Used(dir', j)
                            && EntryName(dir', i) == EntryName(dir', j) ensures i == j
    {
      SetEntryReads(dir, slot, name, |data|, i);
      SetEntryReads(dir, slot, name, |data|, j);
      assert Used(dir, i) && EntryName(dir, i) == name ==> Holds(dir, i, name);
      assert Used(dir, j) && EntryName(dir, j) == name ==> Holds(dir, j, name);
    }
  }

  /** Crash safety for everybody else: whatever prefix of the writes reached the disk, every other
      name reads as before. */
  lemma OthersUnchanged(d: Disk, slot: nat, name: seq<byte>, data: seq<byte>, k: nat, other: seq<byte>)
    requires WellFormed(d) && |name| == NAME_BYTES && 0 < |data| <= SECTOR && k <= 2 && Target(d[DIR_LBA], name, slot)
    requires other != name
    ensures Shaped(AfterWrite(d, slot, name, data, k)) && Read(AfterWrite(d, slot, name, data, k), other) == Read(d, other)
  {
    hide Holds, Find, SetEntry, EntryName, EntrySize, Padded;
    AfterWriteIs(d, slot, name, data, k);
    WriteKeepsWellFormed(d, slot, name, data, k);
    OtherEntries(d[DIR_LBA], slot, name, |data|, other);
    var dir, dir' := d[DIR_LBA], AfterWrite(d, slot, name, data, k)[DIR_LBA];
    if Find(dir, other).Some? {
      FindIs(dir', Find(dir, other).value, other);
    } else {
      FindNone(dir', other);
    }
  }

  lemma FindNone(dir: Sector, name: seq<byte>)
    requires |dir| == SECTOR && forall i: nat :: i < MAX_FILES ==> !Holds(dir, i, name)
    ensures Find(dir, name).None?
  {}

  /** Replacing one entry leaves every other name in its entry, with its size. */
  lemma OtherEntries(dir: Sector, slot: nat, name: seq<byte>, size: nat, other: seq<byte>)
    requires |dir| == SECTOR && |name| == NAME_BYTES && 0 < size <= SECTOR && Target(dir, name, slot) && other != name
    ensures var dir' := SetEntry(dir, slot, name, size);
            forall i: nat :: i < MAX_FILES ==>
              && (Holds(dir', i, other) <==> Holds(dir, i, other))
              && (Holds(dir, i, other) ==> i != slot && EntrySize(dir', i) == EntrySize(dir, i))
  {
    var dir' := SetEntry(dir, slot, name, size);
    forall i: nat | i < MAX_FILES
      ensures Holds(dir', i, other) <==> Holds(dir, i, other)
      ensures Holds(dir, i, other) ==> i != slot && EntrySize(dir', i) == EntrySize(dir, i)
    {
      SetEntryReads(dir, slot, name, size, i);
    }
  }

  /** Crash safety for a new name: it is absent until the last write, and then it reads exactly the
      bytes written. */
  lemma NewNameAtomic(d: Disk, slot: nat, name: seq<byte>, data: seq<byte>, k: nat)
    requires WellFormed(d) && |name| == NAME_BYTES && 0 < |data| <= SECTOR && k <= 2 && Target(d[DIR_LBA], name, slot)
    requires Find(d[DIR_LBA], name).None?
    ensures Shaped(AfterWrite(d, slot, name, data, k))
    ensures Read(AfterWrite(d, slot, name, data, k), name) == if k < 2 then None else Some(File(|data|, Padded(data)))
  {
    AfterWriteIs(d, slot, name, data, k);
    if k == 2 { WrittenReads(d, slot, name, data); }
  }

  /** A completed write, of a new name or an old one, reads exactly the bytes written. */
  lemma WrittenReads(d: Disk, slot: nat, name: seq<byte>, data: seq<byte>)
    requires WellFormed(d) && |name| == NAME_BYTES && 0 < |data| <= SECTOR && Target(d[DIR_LBA], name, slot)
    ensures Shaped(AfterWrite(d, slot, name, data, 2))
    ensures Read(AfterWrite(d, slot, name, data, 2), name) == Some(File(|data|, Padded(data)))
  {
    AfterWriteIs(d, slot, name, data, 2);
    WriteKeepsWellFormed(d, slot, name, data, 2);
    SetEntryReads(d[DIR_LBA], slot, name, |data|, slot);
    FindIs(AfterWrite(d, slot, name, data, 2)[DIR_LBA], slot, name);
  }

  /** Overwriting is not a transaction. Cut off between its two writes it shows the new sector under
      the old size. So it already reads as the new file exactly when the two sizes are the same, and it
      still reads as the old one exactly when the old sector was the new one; otherwise it is neither. */
  lemma OverwriteCutShort(d: Disk, slot: nat, name: seq<byte>, data: seq<byte>)
    requires WellFormed(d) && |name| == NAME_BYTES && 0 < |data| <= SECTOR && Target(d[DIR_LBA], name, slot)
    requires Read(d, name).Some?
    ensures Shaped(AfterWrite(d, slot, name, data, 1))
    ensures Read(AfterWrite(d, slot, name, data, 1), name) == Some(File(Read(d, name).value.size, Padded(data)))
    ensures Read(AfterWrite(d, slot, name, data, 1), name) == Some(File(|data|, Padded(data)))
            <==> Read(d, name).value.size == |data|
    ensures Read(AfterWrite(d, slot, name, data, 1), name) == Read(d, name) <==> Read(d, name).value.sector == Padded(data)
  {
    AfterWriteIs(d, slot, name, data, 1);
    FindIs(d[DIR_LBA], slot, name);
  }

  // ── mounting ───────────────────────────────────────────────────────────────

  predicate SuperValid(s: Sector)
    requires |s| == SECTOR
  {
    FromLe(s[..8]) == MAGIC && FromLe(s[8..12]) == VERSION
  }

  function Generation(s: Sector): nat
    requires |s| == SECTOR
  {
    FromLe(s[12..16])
  }

  function Token(s: Sector): nat
    requires |s| == SECTOR
  {
    FromLe(s[SCRATCH_OFF..SCRATCH_OFF + 8])
  }

  /** What the two tests of sector 0 look for, as bytes: the magic and version 1 at its start, and the
      letters S-FMT-OK at 496. */
  lemma SectorZeroTests(s: Sector)
    requires |s| == SECTOR
    ensures SuperValid(s) <==> s[..8] == [0x53, 0x52, 0x49, 0x53, 0x49, 0x46, 0x53, 0x00] && s[8..12] == [1, 0, 0, 0]
    ensures Token(s) == SCRATCH_TOKEN <==> s[496..504] == [0x53, 0x2D, 0x46, 0x4D, 0x54, 0x2D, 0x4F, 0x4B]
  {
    hide Le, FromLe, Pow256;
    MagicBytes();
    TokenBytes();
    ReadsAs(s[..8], MAGIC);
    ReadsAs(s[8..12], VERSION);
    ReadsAs(s[496..504], SCRATCH_TOKEN);
  }

  lemma MagicBytes()
    ensures Le(MAGIC, 8) == [0x53, 0x52, 0x49, 0x53, 0x49, 0x46, 0x53, 0x00] && Le(VERSION, 4) == [1, 0, 0, 0]
  {
    hide Le;
    EightBytes(MAGIC);
    FourBytes(VERSION);
  }

  lemma TokenBytes()
    ensures Le(SCRATCH_TOKEN, 8) == [0x53, 0x2D, 0x46, 0x4D, 0x54, 0x2D, 0x4F, 0x4B]
  {
    hide Le;
    EightBytes(SCRATCH_TOKEN);
  }

  /** Bytes read as a number exactly when they are that number's bytes. */
  lemma ReadsAs(s: seq<byte>, n: nat)
    requires (|s| == 4 && n < 0x1_0000_0000) || (|s| == 8 && n < 0x1_0000_0000_0000_0000)
    ensures FromLe(s) == n <==> s == Le(n, |s|)
  {
    hide Le, FromLe, Pow256;
    FromLeRoundTrip(s);
    LeRoundTrip(n, |s|);
    Pow256Eight();
  }

  lemma FourBytes(n: nat)
    ensures Le(n, 4) == [n % 256, n / 256 % 256, n / 256 / 256 % 256, n / 256 / 256 / 256 % 256]
  {
    hide Le;
    LeStep(n, 4);
    LeStep(n / 256, 3);
    LeStep(n / 256 / 256, 2);
    LeStep(n / 256 / 256 / 256, 1);
    LeNone(n / 256 / 256 / 256 / 256);
  }

  lemma LeNone(n: nat)
    ensures Le(n, 0) == []
  {}

  lemma EightBytes(n: nat)
    ensures Le(n, 8) == [n % 256, n / 256 % 256, n / 256 / 256 % 256, n / 256 / 256 / 256 % 256,
                         n / 0x1_0000_0000 % 256, n / 0x1_0000_0000 / 256 % 256,
                         n / 0x1_0000_0000 / 256 / 256 % 256, n / 0x1_0000_0000 / 256 / 256 / 256 % 256]
  {
    hide Le;
    var h := n / 256 / 256 / 256 / 256;
    LeStep(n, 8);
    LeStep(n / 256, 7);
    LeStep(n / 256 / 256, 6);
    LeStep(n / 256 / 256 / 256, 5);
    assert h == n / 0x1_0000_0000;
    FourBytes(h);
  }

  /** A sector 0 with this superblock, zeros, and the permission token carried across. */
  function SectorZero(sb: seq<byte>): (s: Sector)
    requires |sb| == SUPER_BYTES
    ensures |s| == SECTOR
  {
    sb + Zeros(SCRATCH_OFF - SUPER_BYTES) + Le(SCRATCH_TOKEN, 8) + Zeros(SECTOR - SCRATCH_OFF - 8)
  }

  /** The superblock one generation later; the counter wraps at 32 bits. */
  function NextSuper(s: Sector): (sb: seq<byte>)
    requires |s| == SECTOR
    ensures |sb| == SUPER_BYTES
  {
    s[..12] + Le(Generation(s) + 1, 4) + s[16..SUPER_BYTES]
  }

  function FreshSuper(): (sb: seq<byte>)
    ensures |sb| == SUPER_BYTES
  {
    Le(MAGIC, 8) + Le(VERSION, 4) + Le(1, 4) + Zeros(8)
  }

  /** What a mount writes: nothing on a foreign disk, one sector on ours, two when it formats. */
  function MountSteps(d: Disk): seq<Step>
    requires |d| > DIR_LBA && |d[0]| == SECTOR
  {
    if SuperValid(d[0]) then [Step(0, SectorZero(NextSuper(d[0])))]
    else if Token(d[0]) != SCRATCH_TOKEN then []
    else [Step(0, SectorZero(FreshSuper())), Step(DIR_LBA, Zeros(SECTOR))]
  }

  ghost predicate Ours(d: Disk) {
    WellFormed(d) && SuperValid(d[0])
  }

  lemma SectorZeroReads(sb: seq<byte>)
    requires |sb| == SUPER_BYTES
    ensures SectorZero(sb)[..8] == sb[..8] && SectorZero(sb)[8..12] == sb[8..12] && SectorZero(sb)[12..16] == sb[12..16]
    ensures Token(SectorZero(sb)) == SCRATCH_TOKEN
  {
    hide Le, FromLe, Pow256;
    var s := SectorZero(sb);
    assert s[SCRATCH_OFF..SCRATCH_OFF + 8] == Le(SCRATCH_TOKEN, 8);
    LeRoundTrip(SCRATCH_TOKEN, 8);
    Pow256Eight();
  }

  lemma Pow256Eight()
    ensures Pow256(4) == 0x1_0000_0000 && Pow256(8) == 0x1_0000_0000_0000_0000
  {
    assert Pow256(1) == 256 && Pow256(2) == 65536;
    assert Pow256(3) == 16777216;
    assert Pow256(4) == 256 * Pow256(3);
    assert Pow256(5) == 256 * Pow256(4);
    assert Pow256(6) == 256 * Pow256(5);
    assert Pow256(7) == 256 * Pow256(6);
    assert Pow256(8) == 256 * Pow256(7);
  }

  /** A remount of our disk, cut short or not, keeps it ours, keeps its permission to be formatted
      once it has it, advances the generation, and changes no file. */
  lemma MountKeepsFiles(d: Disk, k: nat, name: seq<byte>)
    requires Ours(d) && k <= 1
    ensures k <= |MountSteps(d)|
    ensures var d' := Apply(d, MountSteps(d)[..k]);
            && Ours(d') && Read(d', name) == Read(d, name)
            && (k == 1 ==> Generation(d'[0]) == (Generation(d[0]) + 1) % 0x1_0000_0000 && Token(d'[0]) == SCRATCH_TOKEN)
  {
    hide Le, FromLe, SectorZero, NextSuper, SuperValid, Generation, Token, Unique, Find;
    var s := MountSteps(d);
    assert s[..0] == [] && s[..1] == s && s[1..] == [];
    if k == 1 {
      var sector := SectorZero(NextSuper(d[0]));
      assert Apply(d, s) == Apply(d[0 := sector], []);
      NextSuperReads(d[0]);
      SuperApart(d, sector, name);
    }
  }

  lemma NextSuperReads(s: Sector)
    requires |s| == SECTOR
    ensures var r := SectorZero(NextSuper(s));
            (SuperValid(s) <==> SuperValid(r)) && Generation(r) == (Generation(s) + 1) % 0x1_0000_0000 && Token(r) == SCRATCH_TOKEN
  {
    hide Le, FromLe, Pow256, SectorZero, Token;
    var sb := NextSuper(s);
    SectorZeroReads(sb);
    assert sb[..8] == s[..8] && sb[8..12] == s[8..12];
    assert sb[12..16] == Le(Generation(s) + 1, 4);
    LeRoundTrip(Generation(s) + 1, 4);
    Pow256Eight();
  }

  /** The superblock is no part of any file. */
  lemma SuperApart(d: Disk, sector: Sector, name: seq<byte>)
    requires WellFormed(d) && |sector| == SECTOR
    ensures WellFormed(d[0 := sector]) && Read(d[0 := sector], name) == Read(d, name)
  {
    hide Unique, Find, EntrySize;
  }

  /** Neither our superblock nor the permission to write one. */
  predicate Foreign(d: Disk)
    requires |d| > DIR_LBA && |d[0]| == SECTOR
  {
    !SuperValid(d[0]) && Token(d[0]) != SCRATCH_TOKEN
  }

  /** Every mount but that of a foreign disk leaves its mark, from its first write on: the disk is what
      it was exactly when nothing was written, and a whole mount writes nothing exactly when it is foreign. */
  lemma MountLeavesMark(d: Disk, k: nat)
    requires Shaped(d) && k <= |MountSteps(d)|
    ensures Apply(d, MountSteps(d)[..k]) == d <==> k == 0
    ensures Apply(d, MountSteps(d)) == d <==> Foreign(d)
  {
    hide Le, FromLe, Pow256, SectorZero, NextSuper, FreshSuper, SuperValid, Generation, Token;
    var s := MountSteps(d);
    assert s[..0] == [] && s[..|s|] == s;
    SectorZeroAfter(d, k);
    SectorZeroAfter(d, |s|);
    NextSuperReads(d[0]);
    FreshSuperReads();
    GenerationBound(d[0]);
  }

  lemma GenerationBound(s: Sector)
    requires |s| == SECTOR
    ensures Generation(s) < 0x1_0000_0000
  {
    hide FromLe, Pow256;
    Pow256Eight();
  }

  /** What any nonempty prefix of a mount's writes leaves in sector 0. */
  lemma SectorZeroAfter(d: Disk, k: nat)
    requires Shaped(d) && k <= |MountSteps(d)|
    ensures var d' := Apply(d, MountSteps(d)[..k]);
            |d'| == |d| && d'[0] == if k == 0 then d[0]
                                    else if SuperValid(d[0]) then SectorZero(NextSuper(d[0])) else SectorZero(FreshSuper())
  {
    hide Le, FromLe, SectorZero, NextSuper, FreshSuper, SuperValid, Token;
    var s := MountSteps(d);
    var t := s[..k];
    if k == 1 {
      assert t[1..] == [];
    } else if k == 2 {
      assert t[1..] == [t[1]] && [t[1]][1..] == [];
      assert Apply(d, t) == Apply(d[0 := t[0].sector], [t[1]]) == Apply(d[0 := t[0].sector][DIR_LBA := t[1].sector], []);
    }
  }

  ghost predicate NoFiles(dir: Sector)
    requires |dir| == SECTOR
  {
    forall i: nat :: i < MAX_FILES ==> !Used(dir, i)
  }

  lemma ZerosUnused(i: nat)
    requires i < MAX_FILES
    ensures !Used(Zeros(SECTOR), i)
  {
    var b := ENTRY * i + NAME_BYTES;
    assert Zeros(SECTOR)[b..b + 4] == [0, 0, 0, 0];
    assert FromLe([0, 0, 0, 0]) == 0 by {
      assert [0, 0, 0, 0][1..] == [0, 0, 0] && [0, 0, 0][1..] == [0, 0] && [0, 0][1..] == [0] && [0][1..] == [];
    }
  }

  /** A completed format is our filesystem with no files. */
  lemma FormatEmpties(d: Disk)
    requires Shaped(d) && !SuperValid(d[0]) && Token(d[0]) == SCRATCH_TOKEN
    ensures var d' := Apply(d, MountSteps(d));
            Ours(d') && NoFiles(d'[DIR_LBA]) && Generation(d'[0]) == 1 && Token(d'[0]) == SCRATCH_TOKEN
  {
    hide Le, FromLe, Pow256, SectorZero, FreshSuper, Used;
    var s := MountSteps(d);
    assert s[1..] == [s[1]] && [s[1]][1..] == [];
    var d1 := d[0 := s[0].sector];
    assert Apply(d, s) == Apply(d1, [s[1]]) == Apply(d1[DIR_LBA := Zeros(SECTOR)], []);
    FreshSuperReads();
    forall i: nat | i < MAX_FILES ensures !Used(Zeros(SECTOR), i) { ZerosUnused(i); }
  }

  lemma FreshSuperReads()
    ensures SuperValid(SectorZero(FreshSuper())) && Generation(SectorZero(FreshSuper())) == 1
    ensures Token(SectorZero(FreshSuper())) == SCRATCH_TOKEN
  {
    hide Le, FromLe, Pow256, SectorZero;
    var sb := FreshSuper();
    SectorZeroReads(sb);
    Pow256Eight();
    assert sb[..8] == Le(MAGIC, 8) && sb[8..12] == Le(VERSION, 4) && sb[12..16] == Le(1, 4);
    LeRoundTrip(MAGIC, 8);
    LeRoundTrip(VERSION, 4);
    LeRoundTrip(1, 4);
  }

  /** The format itself is not crash safe: cut off after the superblock, the next mount takes whatever
      the directory sector held for a directory. It is empty exactly when that sector's sizes were. */
  lemma FormatCutShort(d: Disk)
    requires Shaped(d) && !SuperValid(d[0]) && Token(d[0]) == SCRATCH_TOKEN
    ensures var d' := Apply(d, MountSteps(d)[..1]);
            Shaped(d') && SuperValid(d'[0]) && (NoFiles(d'[DIR_LBA]) <==> NoFiles(d[DIR_LBA]))
  {
    hide Le, FromLe, Pow256, SectorZero, FreshSuper, Used;
    var s := MountSteps(d);
    assert s[..1] == [s[0]] && [s[0]][1..] == [];
    assert Apply(d, [s[0]]) == Apply(d[0 := s[0].sector], []);
    FreshSuperReads();
  }

  // ── lives of a disk ────────────────────────────────────────────────────────

  /** Something that happened to a disk: a write or a remount, of which `k` sector writes landed. */
  datatype Event = Wrote(slot: nat, name: seq<byte>, data: seq<byte>, k: nat) | Mounted(k: nat)

  ghost predicate Possible(d: Disk, e: Event)
    requires Ours(d)
  {
    match e
    case Wrote(slot, name, data, k) =>
      |name| == NAME_BYTES && 0 < |data| <= SECTOR && k <= 2 && Target(d[DIR_LBA], name, slot)
    case Mounted(k) => k <= 1
  }

  ghost function Next(d: Disk, e: Event): (d': Disk)
    requires Ours(d) && Possible(d, e)
    ensures Ours(d')
  {
    match e
    case Wrote(slot, name, data, k) =>
      WriteKeepsWellFormed(d, slot, name, data, k);
      AfterWriteIs(d, slot, name, data, k);
      AfterWrite(d, slot, name, data, k)
    case Mounted(k) =>
      MountKeepsFiles(d, k, []);
      Apply(d, MountSteps(d)[..k])
  }

  ghost predicate Life(d: Disk, es: seq<Event>)
    requires Ours(d)
    decreases |es|
  {
    es == [] || (Possible(d, es[0]) && Life(Next(d, es[0]), es[1..]))
  }

  ghost function Aged(d: Disk, es: seq<Event>): (d': Disk)
    requires Ours(d) && Life(d, es)
    ensures Ours(d')
    decreases |es|
  {
    if es == [] then d else Aged(Next(d, es[0]), es[1..])
  }

  /** Durability: whatever is written under other names, however often the disk is remounted, and
      wherever any of it is cut short, a file keeps reading as it did. */
  lemma {:induction false} Durable(d: Disk, name: seq<byte>, es: seq<Event>)
    requires Ours(d) && Life(d, es)
    requires forall i :: 0 <= i < |es| && es[i].Wrote? ==> es[i].name != name
    ensures Read(Aged(d, es), name) == Read(d, name)
    decreases |es|
  {
    hide Ours, Read, Apply, AfterWrite, Target, MountSteps;
    if es != [] {
      match es[0] {
        case Wrote(slot, n, data, k) => OursWellFormed(d); OthersUnchanged(d, slot, n, data, k, name);
        case Mounted(k) => MountKeepsFiles(d, k, name);
      }
      Durable(Next(d, es[0]), name, es[1..]);
    }
  }

  lemma OursWellFormed(d: Disk)
    requires Ours(d)
    ensures WellFormed(d)
  {}

  /** An acknowledged write survives: read after any later life of the disk that does not write the
      same name, it gives back exactly the bytes. */
  lemma AcknowledgedSurvives(d: Disk, slot: nat, name: seq<byte>, data: seq<byte>, es: seq<Event>)
    requires Ours(d) && Possible(d, Wrote(slot, name, data, 2))
    requires Life(Next(d, Wrote(slot, name, data, 2)), es)
    requires forall i :: 0 <= i < |es| && es[i].Wrote? ==> es[i].name != name
    ensures Read(Aged(Next(d, Wrote(slot, name, data, 2)), es), name) == Some(File(|data|, Padded(data)))
  {
    WrittenReads(d, slot, name, data);
    Durable(Next(d, Wrote(slot, name, data, 2)), name, es);
  }
}
