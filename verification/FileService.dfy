/** The filesystem service: its mount, its directory scan and its read and write requests, over a
    disk whose every transfer may fail.
 */
module FileService {
  import opened Wrappers
  import opened Bytes
  import opened FileSystem

  const UNREADABLE := -2
  const NO_SLOT := -1

  /** `Ok(w)` or `Err(w)`: the reply label and its first word. */
  datatype Reply = Ok(word: nat) | Err(word: nat)

  class Service {
    var disk: Disk
    var mounted: bool
    var generation: nat
    var files: nat
    var formatted: bool
    var foreign: bool
    /** The buffer clients see. */
    const data: array<byte>
    /** How many transfers the disk has failed. */
    ghost var faults: nat

    constructor (d: Disk)
      requires Shaped(d)
      ensures disk == d && !mounted && data.Length == SECTOR && fresh(data)
    {
      disk := d;
      mounted, generation, files, formatted, foreign := false, 0, 0, false, false;
      data := new byte[SECTOR](_ => 0);
    }

    ghost predicate Valid()
      reads this
    {
      Shaped(disk) && data.Length == SECTOR
    }

    // ── the block service ────────────────────────────────────────────────────

    method ReadSector(lba: nat) returns (ok: bool, s: Sector)
      requires Valid() && lba < |disk|
      modifies this`faults
      ensures faults == if ok then old(faults) else old(faults) + 1
      ensures ok ==> s == disk[lba]
      ensures |s| == SECTOR
    {
      ok := *;
      if !ok { faults := faults + 1; }
      s := if ok then disk[lba] else Zeros(SECTOR);
    }

    /** A write the disk calls failed may or may not have landed. */
    method WriteSector(lba: nat, s: Sector) returns (ok: bool)
      requires Valid() && lba < |disk| && |s| == SECTOR
      modifies this`disk, this`faults
      ensures faults == if ok then old(faults) else old(faults) + 1
      ensures Valid() && (disk == old(disk)[lba := s] || (!ok && disk == old(disk)))
    {
      var landed: bool := *;
      ok := *;
      if !ok { faults := faults + 1; }
      if ok || landed { disk := disk[lba := s]; }
    }

    // ── the directory ────────────────────────────────────────────────────────

    method CountFiles() returns (n: nat)
      requires Valid()
      modifies this`faults
      ensures faults >= old(faults)
      ensures n == if faults == old(faults) then UsedCount(disk[DIR_LBA], MAX_FILES) else 0
    {
      var ok, d := ReadSector(DIR_LBA);
      if !ok { return 0; }
      n := 0;
      for i := 0 to MAX_FILES
        invariant n == UsedCount(d, i)
      {
        if EntrySize(d, i) != 0 { n := n + 1; }
      }
    }

    /** The entry holding a name; else, if wanted, the first free one. */
    method DirFind(name: seq<byte>, wantFree: bool) returns (slot: int, size: nat)
      requires Valid() && |name| == NAME_BYTES
      modifies this`faults
      ensures UNREADABLE <= slot < MAX_FILES && faults >= old(faults)
      ensures slot == UNREADABLE <==> faults != old(faults)
      ensures slot >= 0 ==> Target(disk[DIR_LBA], name, slot)
      ensures slot >= 0 && Find(disk[DIR_LBA], name).Some? ==>
                slot == Find(disk[DIR_LBA], name).value && size == EntrySize(disk[DIR_LBA], slot)
      ensures slot >= 0 && Find(disk[DIR_LBA], name).None? ==>
                wantFree && forall i: nat :: i < slot ==> Used(disk[DIR_LBA], i)
      ensures slot == NO_SLOT <==> faults == old(faults) && Find(disk[DIR_LBA], name).None?
                                   && (wantFree ==> Full(disk[DIR_LBA]))
    {
      size := 0;
      var ok, d := ReadSector(DIR_LBA);
      if !ok { return UNREADABLE, 0; }
      var firstFree := -1;
      for i := 0 to MAX_FILES
        invariant faults == old(faults)
        invariant forall j: nat :: j < i ==> !Holds(d, j, name)
        invariant -1 <= firstFree < i
        invariant firstFree >= 0 ==> !Used(d, firstFree) && forall j: nat :: j < firstFree ==> Used(d, j)
        invariant firstFree < 0 ==> forall j: nat :: j < i ==> Used(d, j)
      {
        if EntrySize(d, i) == 0 {
          if firstFree < 0 { firstFree := i; }
          continue;
        }
        var same := SameName(d, i, name);
        if same { return i, EntrySize(d, i); }
      }
      return if wantFree then firstFree else NO_SLOT, 0;
    }

    method SameName(d: Sector, i: nat, name: seq<byte>) returns (same: bool)
      requires |d| == SECTOR && i < MAX_FILES && |name| == NAME_BYTES
      ensures same <==> EntryName(d, i) == name
    {
      for k := 0 to NAME_BYTES
        invariant forall j :: 0 <= j < k ==> EntryName(d, i)[j] == name[j]
      {
        if d[ENTRY * i + k] != name[k] {
          assert EntryName(d, i)[k] != name[k];
          return false;
        }
      }
      return true;
    }

    // ── requests ─────────────────────────────────────────────────────────────

    /** Stores the first `len` bytes of the client's buffer under a name: contents, then directory.
        The disk is left after some prefix of those two writes, and after both if the reply is good. */
    method Write(name: seq<byte>, len: nat) returns (rep: Reply)
      requires Valid() && |name| == NAME_BYTES
      modifies this`disk, this`files, this`faults
      ensures Valid() && faults >= old(faults)
      ensures !mounted <==> rep == Err(0)
      ensures mounted && (len == 0 || len > SECTOR) <==> rep == Err(1)
      ensures mounted && 0 < len <= SECTOR && faults == old(faults) ==>
                rep == if Find(old(disk)[DIR_LBA], name).None? && Full(old(disk)[DIR_LBA]) then Err(2) else Ok(len)
      ensures rep == Err(2) ==> Find(old(disk)[DIR_LBA], name).None? && Full(old(disk)[DIR_LBA])
      ensures rep in {Ok(len), Err(0), Err(1), Err(2), Err(3), Err(4)}
      ensures rep in {Err(0), Err(1), Err(2), Err(4)} ==> disk == old(disk)
      ensures rep.Ok? && faults == old(faults) ==> files == UsedCount(disk[DIR_LBA], MAX_FILES)
      ensures 0 < len <= SECTOR && disk != old(disk) ==>
                exists slot: nat :: slot < MAX_FILES && Target(old(disk)[DIR_LBA], name, slot)
                                    && SomePrefix(old(disk), disk, slot, name, data[..len])
      ensures rep.Ok? ==>
                exists slot: nat :: slot < MAX_FILES && Target(old(disk)[DIR_LBA], name, slot)
                                    && disk == AfterWrite(old(disk), slot, name, data[..len], 2)
    {
      if !mounted { return Err(0); }
      if len == 0 || len > SECTOR { return Err(1); }
      var slot, _ := DirFind(name, true);
      if slot == UNREADABLE { return Err(4); }
      if slot < 0 { return Err(2); }
      var done := WriteAt(slot, name, len);
      if !done { return Err(3); }
      files := CountFiles();
      return Ok(len);
    }

    method WriteAt(slot: nat, name: seq<byte>, len: nat) returns (done: bool)
      requires Valid() && |name| == NAME_BYTES && 0 < len <= SECTOR && slot < MAX_FILES
      modifies this`disk, this`faults
      ensures Valid() && faults >= old(faults) && (faults == old(faults) <==> done)
      ensures SomePrefix(old(disk), disk, slot, name, data[..len])
      ensures done ==> disk == AfterWrite(old(disk), slot, name, data[..len], 2)
    {
      ghost var d0 := disk;
      AfterWriteIs(d0, slot, name, data[..len], 0);
      AfterWriteIs(d0, slot, name, data[..len], 1);
      AfterWriteIs(d0, slot, name, data[..len], 2);
      hide AfterWrite, SetEntry, Padded;
      var contents := PadBuffer(len);
      var ok := WriteSector(DATA_LBA + slot, contents);
      assert disk == AfterWrite(d0, slot, name, data[..len], 0) || disk == AfterWrite(d0, slot, name, data[..len], 1);
      if !ok { return false; }
      var readable, dir := ReadSector(DIR_LBA);
      if !readable { return false; }
      assert dir == d0[DIR_LBA];
      var dir' := PatchEntry(dir, slot, name, len);
      done := WriteSector(DIR_LBA, dir');
      assert disk == AfterWrite(d0, slot, name, data[..len], 1) || disk == AfterWrite(d0, slot, name, data[..len], 2);
    }

    /** The client's bytes over a zeroed sector. */
    method PadBuffer(len: nat) returns (s: Sector)
      requires data.Length == SECTOR && len <= SECTOR
      ensures s == Padded(data[..len])
    {
      var b := new byte[SECTOR](_ => 0);
      for i := 0 to len
        invariant b[..i] == data[..i]
        invariant forall j :: i <= j < SECTOR ==> b[j] == 0
      {
        b[i] := data[i];
      }
      s := b[..];
      assert s == Padded(data[..len]);
    }

    /** The directory sector with one entry's name and size stored byte by byte. */
    method PatchEntry(dir: Sector, slot: nat, name: seq<byte>, len: nat) returns (s: Sector)
      requires |dir| == SECTOR && slot < MAX_FILES && |name| == NAME_BYTES && len <= SECTOR
      ensures s == SetEntry(dir, slot, name, len)
    {
      var b := new byte[SECTOR](i requires 0 <= i < SECTOR => dir[i]);
      var at := ENTRY * slot;
      for k := 0 to NAME_BYTES
        invariant forall j :: 0 <= j < SECTOR ==> b[j] == if at <= j < at + k then name[j - at] else dir[j]
      {
        b[at + k] := name[k];
      }
      var size := Le(len, 4);
      for k := 0 to 4
        invariant forall j :: 0 <= j < SECTOR ==>
                    b[j] == if at <= j < at + NAME_BYTES then name[j - at]
                            else if at + NAME_BYTES <= j < at + NAME_BYTES + k then size[j - at - NAME_BYTES]
                            else dir[j]
      {
        b[at + NAME_BYTES + k] := size[k];
      }
      s := b[..];
      assert s == SetEntry(dir, slot, name, len);
    }

    /** Shows the client the sector of a file and answers its size. */
    method Read(name: seq<byte>) returns (rep: Reply)
      requires Valid() && |name| == NAME_BYTES
      modifies data, this`faults
      ensures Valid() && faults >= old(faults)
      ensures rep.Ok? <==> mounted && faults == old(faults) && FileSystem.Read(disk, name).Some?
      ensures rep.Ok? ==> FileSystem.Read(disk, name) == Some(File(rep.word, data[..]))
      ensures rep.Err? ==> data[..] == old(data[..])
    {
      if !mounted { return Err(0); }
      var slot, size := DirFind(name, false);
      if slot < 0 || size == 0 || size > SECTOR { return Err(0); }
      var ok, s := ReadSector(DATA_LBA + slot);
      if !ok { return Err(0); }
      for i := 0 to SECTOR
        invariant faults == old(faults) && data[..i] == s[..i]
      {
        data[i] := s[i];
      }
      assert data[..] == s;
      return Ok(size);
    }

    /** Reads the superblock and decides; the disk is left after a prefix of the mount's writes, all of
        them if the mount succeeds. A foreign disk is left exactly as found. */
    method Mount()
      requires Valid() && !mounted
      modifies this
      ensures Valid() && faults >= old(faults)
      ensures faults == old(faults) ==>
                (mounted <==> SuperValid(old(disk)[0]) || Token(old(disk)[0]) == SCRATCH_TOKEN)
                && (foreign <==> old(foreign) || !mounted)
      ensures faults == old(faults) && mounted ==> files == if formatted then 0 else UsedCount(disk[DIR_LBA], MAX_FILES)
      ensures exists k: nat :: k <= |MountSteps(old(disk))| && disk == Apply(old(disk), MountSteps(old(disk))[..k])
      ensures mounted ==> disk == Apply(old(disk), MountSteps(old(disk)))
      ensures mounted ==> formatted == !SuperValid(old(disk)[0]) && (formatted ==> Token(old(disk)[0]) == SCRATCH_TOKEN)
      ensures foreign && !old(foreign) ==> !mounted && disk == old(disk)
      ensures mounted && formatted ==> generation == 1 && files == 0
      ensures mounted && !formatted ==> generation == (Generation(old(disk)[0]) + 1) % 0x1_0000_0000
    {
      hide Le, FromLe, Pow256, SectorZero, NextSuper, FreshSuper;
      ghost var d0, steps := disk, MountSteps(disk);
      assert steps[..0] == [] && steps[..|steps|] == steps;
      assert disk == Apply(d0, steps[..0]);
      var ok, s := ReadSector(0);
      if !ok { return; }
      if !SuperValid(s) {
        if Token(s) != SCRATCH_TOKEN {
          mounted, generation, files, formatted, foreign := false, 0, 0, false, true;
          return;
        }
        OneStep(d0, steps);
        ok := WriteSector(0, SectorZero(FreshSuper()));
        assert disk == Apply(d0, steps[..1]) || disk == d0;
        if !ok { return; }
        ok := WriteSector(DIR_LBA, Zeros(SECTOR));
        if !ok { return; }
        mounted, generation, files, formatted := true, 1, 0, true;
        return;
      }
      OneStep(d0, steps);
      ok := WriteSector(0, SectorZero(NextSuper(s)));
      assert disk == Apply(d0, steps[..1]) || disk == d0;
      if !ok { return; }
      mounted, generation, formatted := true, (Generation(s) + 1) % 0x1_0000_0000, false;
      files := CountFiles();
    }
  }

  /** One or two writes, spelled out. */
  lemma OneStep(d: Disk, steps: seq<Step>)
    requires 0 < |steps| <= 2 && forall i :: 0 <= i < |steps| ==> steps[i].lba < |d|
    ensures Apply(d, steps[..1]) == d[steps[0].lba := steps[0].sector]
    ensures |steps| == 2 ==> Apply(d, steps) == d[steps[0].lba := steps[0].sector][steps[1].lba := steps[1].sector]
    ensures |steps| == 1 ==> steps[..1] == steps
  {
    assert steps[..1] == [steps[0]] && [steps[0]][1..] == [];
    var d1 := d[steps[0].lba := steps[0].sector];
    assert Apply(d, [steps[0]]) == Apply(d1, []) == d1;
    if |steps| == 2 {
      assert steps[1..] == [steps[1]] && [steps[1]][1..] == [];
      assert Apply(d, steps) == Apply(d1, [steps[1]]) == Apply(d1[steps[1].lba := steps[1].sector], []);
    }
  }
}
