/** The synthesised FAT16 volume (virtual_disk.c): every sector is computed when it is read, and the volume holds a
    file with a hex dump of memory. */
module VirtualDisk {
  import opened Bits
  import opened HexDump

  const SECTOR_SIZE: nat := 512
  const SECTOR_COUNT: nat := 262144
  const SECTORS_PER_CLUSTER: nat := 8
  const SECTORS_PER_FAT: nat := 129
  const FAT_COUNT: nat := 2
  const ROOT_DIRECTORY_SECTORS: nat := 32
  const FIRST_CLUSTER: nat := 2
  const CLUS_INDEX: nat := 2
  const CLUS_INFO: nat := 3
  const CLUS_CRASH_START: nat := 4
  const CLUS_CRASH_LAST: nat := 268
  const BYTES_DUMPED_PER_SECTOR: nat := 128
  const BYTES_DUMPED_PER_CLUSTER: nat := 1024
  const SRAM_BASE: Word := 0x2000_0000
  const MEM_SIZE: nat := 0x4_2000
  const CRASH_LEN: nat := 4 * MEM_SIZE

  /** What the sectors are computed from: memory from SRAM_BASE on, up to one cluster's worth beyond its end, the
      serial number, and the two fixed files. */
  datatype Source = Source(memory: seq<Byte>, serial: seq<Byte>, index: seq<Byte>, info: seq<Byte>)
  {
    predicate Valid() {
      && |memory| == MEM_SIZE + BYTES_DUMPED_PER_CLUSTER && |serial| == 4
      && |index| <= SECTOR_SIZE && |info| <= SECTOR_SIZE
    }
  }

  function LsbHword(x: nat): (s: seq<Byte>)
    ensures |s| == 2
  {
    [x % 0x100, x / 0x100 % 0x100]
  }

  function LsbWord(x: nat): (s: seq<Byte>)
    ensures |s| == 4
  {
    [x % 0x100, x / 0x100 % 0x100, x / 0x1_0000 % 0x100, x / 0x100_0000 % 0x100]
  }

  /** The label and file names, and the fixed part of the boot sector. */
  const LABEL: seq<Byte> := [0x52, 0x50, 0x49, 0x2d, 0x52, 0x50, 0x32, 0x20, 0x20, 0x20, 0x20]
  const INDEX_HTM: seq<Byte> := [0x49, 0x4e, 0x44, 0x45, 0x58, 0x20, 0x20, 0x20, 0x48, 0x54, 0x4d]
  const INFO_UF2TXT: seq<Byte> := [0x49, 0x4e, 0x46, 0x4f, 0x5f, 0x55, 0x46, 0x32, 0x54, 0x58, 0x54]
  const CRASHDMPXXD: seq<Byte> := [0x43, 0x52, 0x41, 0x53, 0x48, 0x44, 0x4d, 0x50, 0x58, 0x58, 0x44]

  function BootSector(): (s: seq<Byte>)
    ensures |s| == 0x40
  {
    [0xeb, 0x3c, 0x90, 0x4d, 0x53, 0x57, 0x49, 0x4e, 0x34, 0x2e, 0x31]
    + LsbHword(SECTOR_SIZE) + [SECTORS_PER_CLUSTER] + LsbHword(1) + [FAT_COUNT] + LsbHword(512) + LsbHword(0)
    + [0xf8] + LsbHword(SECTORS_PER_FAT) + LsbHword(1) + LsbHword(1) + LsbWord(1) + LsbWord(SECTOR_COUNT - 1)
    + [0, 0, 0x29, 0, 0, 0, 0] + LABEL + [0x46, 0x41, 0x54, 0x31, 0x36, 0x20, 0x20, 0x20, 0xeb, 0xfe]
  }

  function PartitionData(): (s: seq<Byte>)
    ensures |s| == 11
  {
    [0x0e, 0, 0, 0] + LsbWord(1) + [(SECTOR_COUNT - 1) % 0x100, (SECTOR_COUNT - 1) / 0x100 % 0x100, (SECTOR_COUNT - 1) / 0x1_0000 % 0x100]
  }

  // ---- the volume -------------------------------------------------------------------------------------------

  function Zeros(n: nat): (s: seq<Byte>)
    ensures |s| == n && forall i :: 0 <= i < n ==> s[i] == 0
  {
    seq(n, i => 0)
  }

  /** The FAT entry of a cluster, as the code fills it in: the clusters of the dump follow one another. */
  function FatEntry(cluster: nat): nat {
    if cluster == 0 then 0xfff8
    else if cluster < CLUS_CRASH_START then 0xffff
    else if cluster <= CLUS_CRASH_LAST then cluster + 1
    else 0
  }

  /** A sector of little-endian FAT entries. */
  ghost predicate IsFatSector(s: seq<Byte>, k: nat) {
    |s| == SECTOR_SIZE && forall i :: 0 <= i < 256 ==> Half(s, 2 * i) == FatEntry(256 * k + i)
  }

  function Half(s: seq<Byte>, at: nat): nat
    requires at + 2 <= |s|
  {
    var low: int, high: int := s[at], s[at + 1];
    low + 0x100 * high
  }

  function WordAt(s: seq<Byte>, at: nat): nat
    requires at + 4 <= |s|
  {
    Half(s, at) + 0x1_0000 * Half(s, at + 2)
  }

  function DirEntry(name: seq<Byte>, cluster: nat, len: nat): (s: seq<Byte>)
    requires |name| == 11
    ensures |s| == 32
  {
    name + EntryTail(cluster, len)
  }

  /** A directory entry after its name: attributes, fixed times and dates, start cluster and length. */
  function EntryTail(cluster: nat, len: nat): (s: seq<Byte>)
    ensures |s| == 21
  {
    [0x21, 0, 100] + LsbHword(33433) + LsbHword(14629) + [0, 0, 0, 0] + LsbHword(33433) + LsbHword(14629)
    + LsbHword(cluster) + LsbWord(len)
  }

  function Directory(d: Source): (s: seq<Byte>)
    ensures |s| == SECTOR_SIZE
  {
    LABEL + [0x28] + Zeros(20) + DirEntry(INDEX_HTM, CLUS_INDEX, |d.index|) + DirEntry(INFO_UF2TXT, CLUS_INFO, |d.info|)
    + DirEntry(CRASHDMPXXD, CLUS_CRASH_START, CRASH_LEN) + Zeros(384)
  }

  /** What a data sector holds. */
  function DataSector(d: Source, cluster: nat, offset: nat): (s: seq<Byte>)
    requires d.Valid() && offset < SECTORS_PER_CLUSTER
    ensures |s| == SECTOR_SIZE
  {
    if CLUS_CRASH_START <= cluster <= CLUS_CRASH_LAST then
      var start := (cluster - CLUS_CRASH_START) * BYTES_DUMPED_PER_CLUSTER + offset * BYTES_DUMPED_PER_SECTOR;
      Dump(SRAM_BASE + start, d.memory[start..start + BYTES_DUMPED_PER_SECTOR])
    else if cluster == CLUS_INDEX && offset == 0 then Over(Zeros(SECTOR_SIZE), 0, d.index)
    else if cluster == CLUS_INFO && offset == 0 then Over(Zeros(SECTOR_SIZE), 0, d.info)
    else Zeros(SECTOR_SIZE)
  }

  /** The sector with a given address. */
  ghost predicate IsSector(d: Source, lba: nat, s: seq<Byte>)
    requires d.Valid()
  {
    var root := 2 + SECTORS_PER_FAT * FAT_COUNT;
    var data := root + ROOT_DIRECTORY_SECTORS;
    if lba == 0 then s == Over(Over(Over(Zeros(SECTOR_SIZE), 450, PartitionData()), 510, [0x55, 0xaa]), 0x1b8, d.serial)
    else if lba == 1 then s == Over(Over(Zeros(SECTOR_SIZE), 0, BootSector()), 0x27, d.serial)
    else if lba < root then IsFatSector(s, (lba - 2) % SECTORS_PER_FAT)
    else if lba < data then s == if lba == root then Directory(d) else Zeros(SECTOR_SIZE)
    else s == DataSector(d, (lba - data) / SECTORS_PER_CLUSTER + FIRST_CLUSTER, (lba - data) % SECTORS_PER_CLUSTER)
  }

  // ---- vd_read_block --------------------------------------------------------------------------------------------

  method Clear(buf: array<Byte>)
    requires buf.Length == SECTOR_SIZE
    modifies buf
    ensures buf[..] == Zeros(SECTOR_SIZE)
  {
    for i := 0 to SECTOR_SIZE
      invariant forall j :: 0 <= j < i ==> buf[j] == 0
    {
      buf[i] := 0;
    }
  }

  /** memcpy into the sector buffer. */
  method Store(buf: array<Byte>, at: nat, bytes: seq<Byte>)
    requires at + |bytes| <= buf.Length
    modifies buf
    ensures buf[..] == Over(old(buf[..]), at, bytes)
  {
    hide Over;
    ghost var was := buf[..];
    NothingOver(was, at);
    assert bytes[..0] == [];
    for i := 0 to |bytes|
      invariant buf[..] == Over(was, at, bytes[..i])
    {
      PutByte(buf, at + i, bytes[i]);
      OverAppend(was, at, bytes[..i], [bytes[i]]);
      assert bytes[..i + 1] == bytes[..i] + [bytes[i]];
    }
    assert bytes[..|bytes|] == bytes;
  }

  /** The entries of one FAT sector. */
  method FatSector(buf: array<Byte>, lba: nat)
    requires buf.Length == SECTOR_SIZE && buf[..] == Zeros(SECTOR_SIZE) && lba < SECTORS_PER_FAT
    modifies buf
    ensures IsFatSector(buf[..], lba)
  {
    var index: int := 0;
    if lba == 0 {
      index := PutHalf(buf, index, 0xfff8);
      index := PutHalf(buf, index, 0xffff);
      index := PutHalf(buf, index, 0xffff);
      index := PutHalf(buf, index, 0xffff);
    }
    var minIndex := lba * 256;
    var maxIndex := minIndex + 255;
    var clusCrash := if minIndex > CLUS_CRASH_START then minIndex else CLUS_CRASH_START;
    var last := if maxIndex < CLUS_CRASH_LAST then maxIndex else CLUS_CRASH_LAST;
    while clusCrash <= last
      invariant 0 <= index <= 256 && (if clusCrash <= last + 1 then index == clusCrash - minIndex else index == 0)
      invariant clusCrash > last + 1 ==> minIndex > CLUS_CRASH_LAST
      invariant forall i :: 0 <= i < index ==> Half(buf[..], 2 * i) == FatEntry(minIndex + i)
      invariant forall j :: 2 * index <= j < 512 ==> buf[j] == 0
    {
      index := PutHalf(buf, index, clusCrash + 1);
      clusCrash := clusCrash + 1;
    }
    forall i: int | index <= i < 256 ensures Half(buf[..], 2 * i) == 0 == FatEntry(minIndex + i) {
      assert buf[2 * i] == 0 && buf[2 * i + 1] == 0;
    }
    // the end mark: the index is one within this sector, so this is never reached
    if index - 1 == CLUS_CRASH_LAST {
      assert false;
    }
  }

  /** p[index++] = value on 16-bit entries. */
  method PutHalf(buf: array<Byte>, index: nat, value: nat) returns (next: nat)
    requires buf.Length == SECTOR_SIZE && index < 256 && value < 0x1_0000
    modifies buf
    ensures next == index + 1 && Half(buf[..], 2 * index) == value
    ensures forall j :: 0 <= j < 512 && j != 2 * index && j != 2 * index + 1 ==> buf[j] == old(buf[j])
    ensures forall i :: 0 <= i < 256 && i != index ==> Half(buf[..], 2 * i) == old(Half(buf[..], 2 * i))
  {
    buf[2 * index] := value % 0x100;
    buf[2 * index + 1] := value / 0x100;
    next := index + 1;
  }

  /** init_dir_entry on a cleared entry. */
  method InitDirEntry(buf: array<Byte>, entry: nat, name: seq<Byte>, cluster: nat, len: nat)
    requires entry + 32 <= buf.Length && |name| == 11 && buf[entry..entry + 32] == Zeros(32)
    requires cluster < 0x1_0000 && len < 0x1_0000_0000
    modifies buf
    ensures buf[..] == Over(old(buf[..]), entry, DirEntry(name, cluster, len))
  {
    hide Over, Zeros, LsbHword, LsbWord;
    ghost var was := buf[..];
    ClearedEntry(was, entry);
    ghost var times, at := LsbHword(33433) + LsbHword(14629), entry + 13;
    ghost var created := [100] + LsbHword(33433) + LsbHword(14629);
    PutByte(buf, entry + 13, 100);
    PutHalfAt(buf, entry + 14, 33433);
    OverAppend(was, at, [100], LsbHword(33433));
    PutHalfAt(buf, entry + 16, 14629);
    OverAppend(was, at, [100] + LsbHword(33433), LsbHword(14629));
    ghost var first := buf[..];
    PutHalfAt(buf, entry + 22, 33433);
    PutHalfAt(buf, entry + 24, 14629);
    OverAppend(first, entry + 22, LsbHword(33433), LsbHword(14629));
    OverGap(was, at, created, entry + 22, times);
    ghost var most := created + Zeros(4) + times;
    PutHalfAt(buf, entry + 26, cluster);
    OverAppend(was, at, most, LsbHword(cluster));
    PutHalfAt(buf, entry + 28, len % 0x1_0000);
    OverAppend(was, at, most + LsbHword(cluster), LsbHword(len % 0x1_0000));
    PutHalfAt(buf, entry + 30, len / 0x1_0000);
    OverAppend(was, at, most + LsbHword(cluster) + LsbHword(len % 0x1_0000), LsbHword(len / 0x1_0000));
    ghost var rest := most + LsbHword(cluster) + LsbHword(len % 0x1_0000) + LsbHword(len / 0x1_0000);
    PutByte(buf, entry + 11, 0x21);
    OverBefore(was, entry + 11, [0x21], rest);
    Store(buf, entry, name);
    assert [0x21] + [0] + rest == [0x21, 0] + rest;
    OverBoth(was, entry, name, [0x21, 0] + rest);
    TailText(cluster, len, rest);
  }

  lemma ClearedEntry(s: seq<Byte>, entry: nat)
    requires entry + 32 <= |s| && s[entry..entry + 32] == Zeros(32)
    ensures forall j :: entry <= j < entry + 32 ==> s[j] == 0
  {
    forall j | entry <= j < entry + 32 ensures s[j] == 0 {
      assert s[entry..entry + 32][j - entry] == 0;
    }
  }

  lemma WordHalves(len: nat)
    ensures LsbHword(len % 0x1_0000) + LsbHword(len / 0x1_0000) == LsbWord(len)
  {
    LowBytes(len);
    DivDiv(len, 0x1_0000, 0x100);
    assert len % 0x1_0000 / 0x100 % 0x100 == len / 0x100 % 0x100;
  }

  lemma TailText(cluster: nat, len: nat, rest: seq<Byte>)
    requires rest == [100] + LsbHword(33433) + LsbHword(14629) + Zeros(4) + (LsbHword(33433) + LsbHword(14629)) + LsbHword(cluster)
      + LsbHword(len % 0x1_0000) + LsbHword(len / 0x1_0000)
    ensures [0x21, 0] + rest == EntryTail(cluster, len)
  {
    WordHalves(len);
    hide LsbHword, LsbWord;
    assert Zeros(4) == [0, 0, 0, 0];
  }

  /** Text before other text, with nothing between. */
  lemma OverBoth(s: seq<Byte>, at: nat, first: seq<Byte>, second: seq<Byte>)
    requires at + |first| + |second| <= |s|
    ensures Over(Over(s, at + |first|, second), at, first) == Over(s, at, first + second)
  {
  }

  /** The same with one zero byte between. */
  lemma OverBefore(s: seq<Byte>, at: nat, first: seq<Byte>, second: seq<Byte>)
    requires at + |first| + 1 + |second| <= |s| && s[at + |first|] == 0
    ensures Over(Over(s, at + |first| + 1, second), at, first) == Over(s, at, first + [0] + second)
  {
  }

  /** Text after other text, with zero bytes between. */
  lemma OverGap(s: seq<Byte>, at: nat, first: seq<Byte>, next: nat, second: seq<Byte>)
    requires at + |first| <= next && next + |second| <= |s|
    requires forall j :: at + |first| <= j < next ==> s[j] == 0
    ensures Over(Over(s, at, first), next, second) == Over(s, at, first + Zeros(next - at - |first|) + second)
  {
  }

  method PutHalfAt(buf: array<Byte>, at: nat, value: nat)
    requires at + 2 <= buf.Length && value < 0x1_0000
    modifies buf
    ensures buf[..] == Over(old(buf[..]), at, LsbHword(value))
  {
    buf[at] := value % 0x100;
    buf[at + 1] := value / 0x100;
  }

  /** vd_read_block for the volume as seen through `mem`, memory from SRAM_BASE on. */
  method ReadBlock(buf: array<Byte>, mem: array<Byte>, lbaIn: nat, serial: seq<Byte>, index: seq<Byte>, info: seq<Byte>)
    requires buf != mem && buf.Length == SECTOR_SIZE && Source(mem[..], serial, index, info).Valid()
    modifies buf
    ensures IsSector(Source(mem[..], serial, index, info), lbaIn, buf[..])
  {
    hide Over, Directory, IsFatSector, Dump;
    ghost var d := Source(mem[..], serial, index, info);
    var lba: nat := lbaIn;
    Clear(buf);
    if lba == 0 {
      var ptable := SECTOR_SIZE - 2 - 64;
      Store(buf, ptable + 4, PartitionData());
      Store(buf, ptable + 64, [0x55, 0xaa]);
      Store(buf, 0x1b8, serial);
      return;
    }
    lba := lba - 1;
    if lba == 0 {
      Store(buf, 0, BootSector());
      Store(buf, 0x27, serial);
      return;
    }
    lba := lba - 1;
    if lba < SECTORS_PER_FAT * FAT_COUNT {
      while lba >= SECTORS_PER_FAT
        invariant lba % SECTORS_PER_FAT == (lbaIn - 2) % SECTORS_PER_FAT
      {
        lba := lba - SECTORS_PER_FAT;
      }
      FatSector(buf, lba);
      return;
    }
    lba := lba - SECTORS_PER_FAT * FAT_COUNT;
    if lba < ROOT_DIRECTORY_SECTORS {
      if lba == 0 { RootDirectory(buf, index, info, d); }
      return;
    }
    lba := lba - ROOT_DIRECTORY_SECTORS;
    DataBlock(buf, mem, lba / 8 + FIRST_CLUSTER, lba % 8, index, info, d);
  }

  /** The first sector of the root directory: the label and three files. */
  method RootDirectory(buf: array<Byte>, index: seq<Byte>, info: seq<Byte>, ghost d: Source)
    requires buf.Length == SECTOR_SIZE && buf[..] == Zeros(SECTOR_SIZE)
    requires d.Valid() && d.index == index && d.info == info
    modifies buf
    ensures buf[..] == Directory(d)
  {
    hide Over, DirEntry;
    ghost var zeros, volumeLabel := buf[..], LABEL + [0x28];
    Store(buf, 0, LABEL);
    PutByte(buf, 11, 0x28);
    OverAppend(zeros, 0, LABEL, [0x28]);
    StillZero(zeros, 0, volumeLabel, 32);
    InitDirEntry(buf, 32, INDEX_HTM, CLUS_INDEX, |index|);
    ghost var first := DirEntry(INDEX_HTM, CLUS_INDEX, |index|);
    OverGap(zeros, 0, volumeLabel, 32, first);
    ghost var text := volumeLabel + Zeros(20) + first;
    StillZero(zeros, 0, text, 64);
    InitDirEntry(buf, 64, INFO_UF2TXT, CLUS_INFO, |info|);
    ghost var second := DirEntry(INFO_UF2TXT, CLUS_INFO, |info|);
    OverAppend(zeros, 0, text, second);
    StillZero(zeros, 0, text + second, 96);
    InitDirEntry(buf, 96, CRASHDMPXXD, CLUS_CRASH_START, CRASH_LEN);
    OverAppend(zeros, 0, text + second, DirEntry(CRASHDMPXXD, CLUS_CRASH_START, CRASH_LEN));
    WholeSector(zeros, text + second + DirEntry(CRASHDMPXXD, CLUS_CRASH_START, CRASH_LEN));
  }

  lemma StillZero(s: seq<Byte>, at: nat, text: seq<Byte>, entry: nat)
    requires s == Zeros(SECTOR_SIZE) && at + |text| <= entry && entry + 32 <= SECTOR_SIZE
    ensures Over(s, at, text)[entry..entry + 32] == Zeros(32)
  {
    var r, zeros := Over(s, at, text), Zeros(32);
    OverAt(s, at, text);
    hide Over;
    forall j | 0 <= j < 32 ensures r[entry..entry + 32][j] == zeros[j] {
      assert r[entry + j] == s[entry + j];
    }
  }

  lemma WholeSector(s: seq<Byte>, text: seq<Byte>)
    requires s == Zeros(SECTOR_SIZE) && |text| == 128
    ensures Over(s, 0, text) == text + Zeros(384)
  {
  }

  /** A sector of a cluster: of one of the two fixed files, or of the dump. */
  method DataBlock(buf: array<Byte>, mem: array<Byte>, cluster: nat, clusterOffset: nat, index: seq<Byte>, info: seq<Byte>,
                   ghost d: Source)
    requires buf != mem && buf.Length == SECTOR_SIZE && buf[..] == Zeros(SECTOR_SIZE) && clusterOffset < 8
    requires d.Valid() && d.memory == mem[..] && d.index == index && d.info == info
    modifies buf
    ensures buf[..] == DataSector(d, cluster, clusterOffset)
  {
    hide Over, Dump;
    if clusterOffset == 0 {
      if cluster == CLUS_INDEX {
        Store(buf, 0, index);
      } else if cluster == CLUS_INFO {
        Store(buf, 0, info);
      }
    }
    if CLUS_CRASH_START <= cluster <= CLUS_CRASH_LAST {
      var start := (cluster - CLUS_CRASH_START) * BYTES_DUMPED_PER_CLUSTER + clusterOffset * BYTES_DUMPED_PER_SECTOR;
      Xxd(buf, mem, start, SRAM_BASE + start);
      assert mem[start..start + 128] == d.memory[start..start + 128];
    }
  }

  // ---- the host --------------------------------------------------------------------------------------------------

  /** Bytes of a sector, whatever is written elsewhere over it. */
  lemma OverAt(s: seq<Byte>, at: nat, text: seq<Byte>)
    requires at + |text| <= |s|
    ensures forall i :: 0 <= i < |s| ==> Over(s, at, text)[i] == if at <= i < at + |text| then text[i - at] else s[i]
  {
  }

  /** The partition table: its signature, and one partition from sector 1 on. */
  lemma PartitionFields(d: Source, s: seq<Byte>)
    requires d.Valid() && IsSector(d, 0, s)
    ensures |s| == SECTOR_SIZE && WordAt(s, 446 + 8) == 1 && WordAt(s, 446 + 12) == SECTOR_COUNT - 1
    ensures s[510] == 0x55 && s[511] == 0xaa && s[446 + 4] == 0x0e && s[0x1b8..0x1bc] == d.serial
  {
    var zeros, table := Zeros(SECTOR_SIZE), PartitionData();
    OverAt(zeros, 450, table);
    OverAt(Over(zeros, 450, table), 510, [0x55, 0xaa]);
    OverAt(Over(Over(zeros, 450, table), 510, [0x55, 0xaa]), 0x1b8, d.serial);
    hide Over;
    PartitionBytes();
    assert s[450] == table[0] && s[454] == table[4] && s[455] == table[5] && s[456] == table[6] && s[457] == table[7];
    assert s[458] == table[8] && s[459] == table[9] && s[460] == table[10] && s[461] == 0;
    assert s[510] == [0x55, 0xaa][0] && s[511] == [0x55, 0xaa][1];
  }

  lemma PartitionBytes()
    ensures var table := PartitionData();
      && table[0] == 0x0e && table[4] == 1 && table[5] == table[6] == table[7] == 0
      && table[8] == 0xff && table[9] == 0xff && table[10] == 3
  {
  }

  /** The geometry in the boot sector. */
  lemma BootFields(d: Source, s: seq<Byte>)
    requires d.Valid() && IsSector(d, 1, s)
    ensures |s| == SECTOR_SIZE && s[0x0d] == SECTORS_PER_CLUSTER && Half(s, 0x0e) == 1 && s[0x10] == FAT_COUNT
    ensures Half(s, 0x0b) == SECTOR_SIZE && Half(s, 0x11) == 512 && Half(s, 0x16) == SECTORS_PER_FAT
    ensures Half(s, 0x13) == 0 && WordAt(s, 0x20) == SECTOR_COUNT - 1 && WordAt(s, 0x1c) == 1 && s[0x15] == 0xf8
    ensures s[0x26] == 0x29 && s[0x27..0x2b] == d.serial && s[0x2b..0x36] == LABEL && s[0x36..0x3e] == Ascii("FAT16   ")
  {
    var boot := BootSector();
    BootCopied(d, s);
    BootBytes();
    BootText();
    hide BootSector, Ascii, IsSector;
  }

  /** The boot sector of the volume has no signature; only the partition table has one. */
  lemma BootHasNoSignature(d: Source, s: seq<Byte>)
    requires d.Valid() && IsSector(d, 1, s)
    ensures |s| == SECTOR_SIZE && s[510] == s[511] == 0
  {
    OverAt(Zeros(SECTOR_SIZE), 0, BootSector());
    OverAt(Over(Zeros(SECTOR_SIZE), 0, BootSector()), 0x27, d.serial);
    hide Over, BootSector;
  }

  lemma BootCopied(d: Source, s: seq<Byte>)
    requires d.Valid() && IsSector(d, 1, s)
    ensures |s| == SECTOR_SIZE && s[0x27..0x2b] == d.serial
    ensures (forall i :: 0 <= i < 0x27 ==> s[i] == BootSector()[i])
    ensures s[0x2b..0x36] == BootSector()[0x2b..0x36] && s[0x36..0x3e] == BootSector()[0x36..0x3e]
  {
    var zeros, boot := Zeros(SECTOR_SIZE), BootSector();
    OverAt(zeros, 0, boot);
    OverAt(Over(zeros, 0, boot), 0x27, d.serial);
    hide Over, BootSector;
    assert forall i :: 0x2b <= i < 0x40 ==> s[i] == boot[i];
  }

  lemma BootBytes()
    ensures var boot := BootSector();
      && boot[0x0b] == 0 && boot[0x0c] == 2 && boot[0x0d] == 8 && boot[0x0e] == 1 && boot[0x0f] == 0 && boot[0x10] == 2
      && boot[0x11] == 0 && boot[0x12] == 2 && boot[0x13] == boot[0x14] == 0 && boot[0x15] == 0xf8
      && boot[0x16] == 129 && boot[0x17] == 0 && boot[0x1c] == 1 && boot[0x1d] == boot[0x1e] == boot[0x1f] == 0
      && boot[0x20] == 0xff && boot[0x21] == 0xff && boot[0x22] == 3 && boot[0x23] == 0 && boot[0x26] == 0x29
  {
  }

  lemma BootText()
    ensures BootSector()[0x2b..0x36] == LABEL && BootSector()[0x36..0x3e] == Ascii("FAT16   ")
  {
    var boot, rest := BootSector(), [0x46, 0x41, 0x54, 0x31, 0x36, 0x20, 0x20, 0x20, 0xeb, 0xfe];
    assert boot[0x2b..] == LABEL + rest;
    assert Ascii("FAT16   ") == rest[..8];
    assert boot[0x2b..0x36] == boot[0x2b..][..11] && boot[0x36..0x3e] == boot[0x2b..][11..19];
  }

  // ---- the root directory ----------------------------------------------------------------------------------------

  /** The files of the volume in the order of their directory entries. */
  function FileName(n: nat): seq<Byte> { if n == 0 then INDEX_HTM else if n == 1 then INFO_UF2TXT else CRASHDMPXXD }

  function FileCluster(n: nat): nat { if n == 0 then CLUS_INDEX else if n == 1 then CLUS_INFO else CLUS_CRASH_START }

  function FileLength(d: Source, n: nat): nat { if n == 0 then |d.index| else if n == 1 then |d.info| else CRASH_LEN }

  /** The volume label comes first, then the three files, then the end of the directory. */
  lemma DirectoryFields(d: Source)
    requires d.Valid()
    ensures var s := Directory(d);
      && s[0..11] == LABEL && s[11] == 0x28 && s[128] == 0
      && forall n :: 0 <= n < 3 ==> IsEntry(s, 32 + 32 * n, FileName(n), FileCluster(n), FileLength(d, n))
  {
    hide DirEntry, IsEntry;
    var s := Directory(d);
    var first, second, third := DirEntry(INDEX_HTM, CLUS_INDEX, |d.index|), DirEntry(INFO_UF2TXT, CLUS_INFO, |d.info|),
      DirEntry(CRASHDMPXXD, CLUS_CRASH_START, CRASH_LEN);
    assert s[0..11] == LABEL && s[32..64] == first && s[64..96] == second && s[96..128] == third;
    EntryFields(s, 32, INDEX_HTM, CLUS_INDEX, |d.index|);
    EntryFields(s, 64, INFO_UF2TXT, CLUS_INFO, |d.info|);
    EntryFields(s, 96, CRASHDMPXXD, CLUS_CRASH_START, CRASH_LEN);
  }

  /** A directory entry as a host reads it: a read-only file with a name, a first cluster and a length. */
  ghost predicate IsEntry(s: seq<Byte>, at: nat, name: seq<Byte>, cluster: nat, len: nat) {
    at + 32 <= |s| && s[at..at + 11] == name && s[at + 11] == 0x21 && Half(s, at + 26) == cluster && WordAt(s, at + 28) == len
  }

  lemma EntryFields(s: seq<Byte>, at: nat, name: seq<Byte>, cluster: nat, len: nat)
    requires |name| == 11 && at + 32 <= |s| && s[at..at + 32] == DirEntry(name, cluster, len)
    requires cluster < 0x1_0000 && len < 0x100_0000
    ensures IsEntry(s, at, name, cluster, len)
  {
    var entry, tail := DirEntry(name, cluster, len), EntryTail(cluster, len);
    assert entry[..11] == name && entry[11..] == tail;
    assert tail[15..] == LsbHword(cluster) + LsbWord(len);
    assert forall i :: at <= i < at + 32 ==> s[i] == s[at..at + 32][i - at];
    assert s[at..at + 11] == entry[..11];
    assert s[at + 11] == tail[0] && s[at + 26] == tail[15] && s[at + 27] == tail[16];
    assert s[at + 28] == tail[17] && s[at + 29] == tail[18] && s[at + 30] == tail[19] && s[at + 31] == tail[20];
    assert tail[15] == LsbHword(cluster)[0] && tail[16] == LsbHword(cluster)[1] && tail[17] == LsbWord(len)[0];
    assert tail[18] == LsbWord(len)[1] && tail[19] == LsbWord(len)[2] && tail[20] == LsbWord(len)[3];
    hide DirEntry, EntryTail;
    HalfValue(cluster);
    WordValue(len);
  }

  lemma HalfValue(x: nat)
    requires x < 0x1_0000
    ensures x % 0x100 + 0x100 * (x / 0x100 % 0x100) == x
  {
  }

  lemma WordValue(x: nat)
    requires x < 0x100_0000
    ensures x % 0x100 + 0x100 * (x / 0x100 % 0x100) + 0x1_0000 * (x / 0x1_0000 % 0x100) == x && x / 0x100_0000 % 0x100 == 0
  {
    var high, low := x / 0x1_0000, x % 0x1_0000;
    LowBytes(x);
    HalfValue(low);
  }

  /** What a host needs to know of the volume. */
  datatype Volume = Volume(fatStart: nat, sectorsPerFat: nat, sectorsPerCluster: nat, rootStart: nat, dataStart: nat)

  /** A host that knows only the FAT16 format mounts the volume: partition table, boot sector, the first two FAT entries
      and what they say about each other are checked. */
  method Mount(buf: array<Byte>, mem: array<Byte>, serial: seq<Byte>, index: seq<Byte>, info: seq<Byte>)
    returns (ok: bool, v: Volume)
    requires buf != mem && buf.Length == SECTOR_SIZE && Source(mem[..], serial, index, info).Valid()
    modifies buf
    ensures ok && v == Volume(2, SECTORS_PER_FAT, SECTORS_PER_CLUSTER, 260, 292)
  {
    hide IsSector, Ascii;
    ghost var d := Source(mem[..], serial, index, info);
    ReadBlock(buf, mem, 0, serial, index, info);
    PartitionFields(d, buf[..]);
    var start, sectors, diskSerial := WordAt(buf[..], 446 + 8), WordAt(buf[..], 446 + 12), buf[..][0x1b8..0x1bc];
    ok := buf[510] == 0x55 && buf[511] == 0xaa && buf[446 + 4] == 0x0e;
    ReadBlock(buf, mem, start, serial, index, info);
    BootFields(d, buf[..]);
    var fats: nat, rootEntries: nat, media: nat := buf[0x10], Half(buf[..], 0x11), buf[0x15];
    var fatStart, sectorsPerFat, sectorsPerCluster := start + Half(buf[..], 0x0e), Half(buf[..], 0x16), buf[0x0d];
    var rootStart := fatStart + fats * sectorsPerFat;
    var dataStart := rootStart + rootEntries * 32 / SECTOR_SIZE;
    var clusters := (start + sectors - dataStart) / 8;
    ok := ok && Half(buf[..], 0x0b) == 512 && sectorsPerCluster == 8 && Half(buf[..], 0x13) == 0
      && WordAt(buf[..], 0x20) == sectors && WordAt(buf[..], 0x1c) == start && buf[0x26] == 0x29
      && buf[..][0x27..0x2b] == diskSerial && buf[..][0x36..0x3e] == Ascii("FAT16   ")
      && 4085 <= clusters < 65525 && clusters + 2 <= 256 * sectorsPerFat;
    for copy := 0 to fats
      invariant ok && mem[..] == d.memory
    {
      ReadBlock(buf, mem, fatStart + copy * sectorsPerFat, serial, index, info);
      FatLink(d, buf[..], copy, 0);
      FatLink(d, buf[..], copy, 1);
      ok := ok && Half(buf[..], 0) == 0xff00 + media && Half(buf[..], 2) == 0xffff;
    }
    v := Volume(fatStart, sectorsPerFat, sectorsPerCluster, rootStart, dataStart);
  }

  /** The host looks a name up in the root directory: it passes over the volume label, and stops at the first entry that
      was never used. */
  method FindFile(buf: array<Byte>, mem: array<Byte>, serial: seq<Byte>, index: seq<Byte>, info: seq<Byte>, rootStart: nat,
                  name: seq<Byte>) returns (found: bool, cluster: nat, len: nat)
    requires buf != mem && buf.Length == SECTOR_SIZE && Source(mem[..], serial, index, info).Valid()
    requires rootStart == 260 && |name| == 11
    modifies buf
    ensures found <==> exists n :: 0 <= n < 3 && name == FileName(n)
    ensures forall n :: 0 <= n < 3 && name == FileName(n) ==>
      cluster == FileCluster(n) && len == FileLength(Source(mem[..], serial, index, info), n)
  {
    hide IsSector, Directory, Half, WordAt;
    ghost var d := Source(mem[..], serial, index, info);
    ReadBlock(buf, mem, rootStart, serial, index, info);
    RootSector(d, buf[..]);
    DirectoryFields(d);
    NamesDiffer();
    found, cluster, len := false, 0, 0;
    var n := 0;
    while n < 16 && buf[32 * n] != 0 && !found
      invariant n <= 4 && buf[..] == Directory(d) && mem[..] == d.memory
      invariant found ==> exists k :: 0 <= k < 3 && name == FileName(k) && cluster == FileCluster(k) && len == FileLength(d, k)
      invariant !found ==> forall k :: 0 <= k < n - 1 ==> name != FileName(k)
      decreases 16 - n
    {
      var isLabel, entryName, first, size := ReadEntry(buf, 32 * n);
      if n > 0 { EntryRead(buf[..], n - 1, d); }
      if !isLabel && entryName == name { found, cluster, len := true, first, size; }
      n := n + 1;
    }
    if n < 4 { EntryInUse(buf[..], n, d); }
  }

  /** The fields of a directory entry that a host looks at. */
  method ReadEntry(buf: array<Byte>, at: nat) returns (isLabel: bool, name: seq<Byte>, cluster: nat, len: nat)
    requires at + 32 <= buf.Length
    ensures isLabel == (buf[at + 11] / 8 % 2 == 1) && name == buf[..][at..at + 11]
    ensures cluster == Half(buf[..], at + 26) && len == WordAt(buf[..], at + 28)
  {
    isLabel, name := buf[at + 11] / 8 % 2 == 1, buf[..][at..at + 11];
    cluster, len := Half(buf[..], at + 26), WordAt(buf[..], at + 28);
  }

  lemma EntryRead(s: seq<Byte>, n: nat, d: Source)
    requires d.Valid() && s == Directory(d) && n < 4 && s[32 + 32 * n] != 0
    ensures n < 3 && s[32 + 32 * n..43 + 32 * n] == FileName(n) && s[43 + 32 * n] / 8 % 2 != 1
    ensures Half(s, 58 + 32 * n) == FileCluster(n) && WordAt(s, 60 + 32 * n) == FileLength(d, n)
  {
    NextEntry(s, n, d);
  }

  lemma EntryInUse(s: seq<Byte>, n: nat, d: Source)
    requires d.Valid() && s == Directory(d) && n < 4
    ensures s[32 * n] != 0
  {
    DirectoryFields(d);
    assert LABEL[0] != 0 && INDEX_HTM[0] != 0 && INFO_UF2TXT[0] != 0 && CRASHDMPXXD[0] != 0;
    if n == 0 {
      assert s[0..11][0] != 0;
    } else {
      assert IsEntry(s, 32 + 32 * (n - 1), FileName(n - 1), FileCluster(n - 1), FileLength(d, n - 1));
      assert s[32 * n] == s[32 * n..32 * n + 11][0];
    }
  }

  lemma NextEntry(s: seq<Byte>, n: nat, d: Source)
    requires d.Valid() && s == Directory(d) && n < 4 && s[32 + 32 * n] != 0
    ensures n < 3 && IsEntry(s, 32 + 32 * n, FileName(n), FileCluster(n), FileLength(d, n))
  {
    DirectoryFields(d);
  }

  lemma NamesDiffer()
    ensures forall i, j :: 0 <= i < j < 3 ==> FileName(i) != FileName(j)
  {
    assert INDEX_HTM[2] != INFO_UF2TXT[2] && INDEX_HTM[0] != CRASHDMPXXD[0] && INFO_UF2TXT[0] != CRASHDMPXXD[0];
  }

  lemma RootSector(d: Source, s: seq<Byte>)
    requires d.Valid() && IsSector(d, 260, s)
    ensures s == Directory(d)
  {
  }

  // ---- reading a file --------------------------------------------------------------------------------------------

  /** The first `n` sectors of a cluster. */
  function ClusterData(d: Source, cluster: nat, n: nat): (s: seq<Byte>)
    requires d.Valid() && n <= SECTORS_PER_CLUSTER
    ensures |s| == SECTOR_SIZE * n
  {
    if n == 0 then [] else ClusterData(d, cluster, n - 1) + DataSector(d, cluster, n - 1)
  }

  /** The host reads a cluster. */
  method ReadCluster(buf: array<Byte>, mem: array<Byte>, serial: seq<Byte>, index: seq<Byte>, info: seq<Byte>, v: Volume,
                     cluster: nat) returns (data: seq<Byte>)
    requires buf != mem && buf.Length == SECTOR_SIZE && Source(mem[..], serial, index, info).Valid()
    requires v == Volume(2, SECTORS_PER_FAT, SECTORS_PER_CLUSTER, 260, 292) && cluster >= FIRST_CLUSTER
    modifies buf
    ensures data == ClusterData(Source(mem[..], serial, index, info), cluster, SECTORS_PER_CLUSTER)
  {
    hide IsSector, DataSector;
    ghost var d := Source(mem[..], serial, index, info);
    var first := v.dataStart + (cluster - FIRST_CLUSTER) * v.sectorsPerCluster;
    data := [];
    for sector := 0 to v.sectorsPerCluster
      invariant mem[..] == d.memory && data == ClusterData(d, cluster, sector)
    {
      ReadBlock(buf, mem, first + sector, serial, index, info);
      SectorOfCluster(d, buf[..], cluster, sector);
      data := data + buf[..];
    }
  }

  lemma SectorOfCluster(d: Source, s: seq<Byte>, cluster: nat, sector: nat)
    requires d.Valid() && cluster >= FIRST_CLUSTER && sector < SECTORS_PER_CLUSTER
    requires IsSector(d, 292 + (cluster - FIRST_CLUSTER) * SECTORS_PER_CLUSTER + sector, s)
    ensures s == DataSector(d, cluster, sector)
  {
    DivModUnique((cluster - FIRST_CLUSTER) * 8 + sector, 8, cluster - FIRST_CLUSTER, sector);
  }

  /** Both copies of the FAT hold the entry of every cluster. */
  lemma FatLink(d: Source, s: seq<Byte>, fatCopy: nat, cluster: nat)
    requires d.Valid() && fatCopy < FAT_COUNT && cluster < 256 * SECTORS_PER_FAT
    requires IsSector(d, 2 + fatCopy * SECTORS_PER_FAT + cluster / 256, s)
    ensures |s| == SECTOR_SIZE && Half(s, 2 * (cluster % 256)) == FatEntry(cluster)
  {
    assert (fatCopy * SECTORS_PER_FAT + cluster / 256) % SECTORS_PER_FAT == cluster / 256;
    assert Half(s, 2 * (cluster % 256)) == FatEntry(256 * (cluster / 256) + cluster % 256);
  }

  /** The host follows the link of a cluster in the copy of the FAT it prefers. */
  method NextCluster(buf: array<Byte>, mem: array<Byte>, serial: seq<Byte>, index: seq<Byte>, info: seq<Byte>, v: Volume,
                     fatCopy: nat, cluster: nat) returns (next: nat)
    requires buf != mem && buf.Length == SECTOR_SIZE && Source(mem[..], serial, index, info).Valid()
    requires v == Volume(2, SECTORS_PER_FAT, SECTORS_PER_CLUSTER, 260, 292)
    requires fatCopy < FAT_COUNT && cluster < 256 * SECTORS_PER_FAT
    modifies buf
    ensures next == FatEntry(cluster)
  {
    hide IsSector;
    ReadBlock(buf, mem, v.fatStart + fatCopy * v.sectorsPerFat + cluster / 256, serial, index, info);
    FatLink(Source(mem[..], serial, index, info), buf[..], fatCopy, cluster);
    next := Half(buf[..], 2 * (cluster % 256));
  }

  /** A host that knows only the FAT16 format reads a file by its name, following the links of either copy of the FAT for as
      long as the directory says; `ended` says whether the last cluster has an end mark. */
  method ReadFile(mem: array<Byte>, serial: seq<Byte>, index: seq<Byte>, info: seq<Byte>, name: seq<Byte>, fatCopy: nat)
    returns (found: bool, text: seq<Byte>, ended: bool)
    requires Source(mem[..], serial, index, info).Valid() && fatCopy < FAT_COUNT && |name| == 11
    ensures found <==> name in [Ascii("INDEX   HTM"), Ascii("INFO_UF2TXT"), Ascii("CRASHDMPXXD")]
    ensures name == Ascii("INDEX   HTM") ==> text == index && ended
    ensures name == Ascii("INFO_UF2TXT") ==> text == info && ended
    ensures name == Ascii("CRASHDMPXXD") ==> text == Dump(SRAM_BASE, mem[..MEM_SIZE]) && !ended
  {
    hide IsSector, Dump, Directory, DataSector, Ascii;
    var buf := new Byte[SECTOR_SIZE];
    FileNames();
    NamesDiffer();
    var mounted, v := Mount(buf, mem, serial, index, info);
    var cluster, len;
    found, cluster, len := FindFile(buf, mem, serial, index, info, v.rootStart, name);
    text, ended := [], false;
    if mounted && found {
      ghost var n :| 0 <= n < 3 && name == FileName(n);
      text, ended := ReadChain(buf, mem, serial, index, info, v, fatCopy, cluster, len, n);
    }
  }

  /** The host reads `len` bytes along the links from a cluster; it is the file with number n that is found there. */
  method ReadChain(buf: array<Byte>, mem: array<Byte>, serial: seq<Byte>, index: seq<Byte>, info: seq<Byte>, v: Volume,
                   fatCopy: nat, first: nat, len: nat, ghost n: nat) returns (text: seq<Byte>, ended: bool)
    requires buf != mem && buf.Length == SECTOR_SIZE && Source(mem[..], serial, index, info).Valid() && fatCopy < FAT_COUNT
    requires v == Volume(2, SECTORS_PER_FAT, SECTORS_PER_CLUSTER, 260, 292)
    requires n < 3 && first == FileCluster(n) && len == FileLength(Source(mem[..], serial, index, info), n)
    modifies buf
    ensures mem[..] == old(mem[..]) && (ended <==> n < 2)
    ensures text == if n < 2 then FileText(Source(mem[..], serial, index, info), n) else Dump(SRAM_BASE, mem[..MEM_SIZE])
  {
    hide Dump, ClusterData, IsSector, DataSector, Directory;
    ghost var d := Source(mem[..], serial, index, info);
    var cluster := first;
    var data := ReadCluster(buf, mem, serial, index, info, v, cluster);
    text := data[..if len < |data| then len else |data|];
    FirstCluster(d, n);
    while |text| < len
      invariant mem[..] == d.memory && cluster < 256 * SECTORS_PER_FAT && |text| <= len && (n < 2 ==> text == FileText(d, n))
      invariant n < 2 ==> cluster == FileCluster(n)
      invariant n == 2 ==> |text| % 4096 == 0 && |text| > 0 && cluster == CLUS_CRASH_START - 1 + |text| / 4096
      invariant n == 2 ==> text == Dump(SRAM_BASE, d.memory[..|text| / 4])
      decreases len - |text|
    {
      cluster := NextCluster(buf, mem, serial, index, info, v, fatCopy, cluster);
      data := ReadCluster(buf, mem, serial, index, info, v, cluster);
      MoreOfDump(d, cluster, text);
      text := text + data[..if len - |text| < |data| then len - |text| else |data|];
    }
    var link := NextCluster(buf, mem, serial, index, info, v, fatCopy, cluster);
    ended := link >= 0xfff8;
  }

  lemma FileNames()
    ensures FileName(0) == Ascii("INDEX   HTM") && FileName(1) == Ascii("INFO_UF2TXT") && FileName(2) == Ascii("CRASHDMPXXD")
  {
  }

  function FileText(d: Source, n: nat): seq<Byte> { if n == 0 then d.index else d.info }

  /** What the first cluster of a file gives. */
  lemma FirstCluster(d: Source, n: nat)
    requires d.Valid() && n < 3
    ensures var data := ClusterData(d, FileCluster(n), SECTORS_PER_CLUSTER);
      && |data| == 4096
      && (n < 2 ==> FileLength(d, n) <= 512 && data[..FileLength(d, n)] == FileText(d, n))
      && (n == 2 ==> data == Dump(SRAM_BASE, d.memory[..1024]))
  {
    if n < 2 { ShortCluster(d, n, SECTORS_PER_CLUSTER); } else { DumpCluster(d, CLUS_CRASH_START, SECTORS_PER_CLUSTER); }
  }

  /** A short file is the first bytes of its cluster. */
  lemma {:induction false} ShortCluster(d: Source, n: nat, sectors: nat)
    requires d.Valid() && n < 2 && 0 < sectors <= SECTORS_PER_CLUSTER
    ensures |FileText(d, n)| == FileLength(d, n) <= 512
    ensures ClusterData(d, FileCluster(n), sectors)[..FileLength(d, n)] == FileText(d, n)
  {
    StartOfFile(d, n);
    hide DataSector;
    var all, text := ClusterData(d, FileCluster(n), sectors), FileText(d, n);
    if sectors == 1 {
      assert ClusterData(d, FileCluster(n), 0) == [];
      assert all == DataSector(d, FileCluster(n), 0);
    } else {
      ShortCluster(d, n, sectors - 1);
      assert all[..|text|] == ClusterData(d, FileCluster(n), sectors - 1)[..|text|];
    }
  }

  lemma StartOfFile(d: Source, n: nat)
    requires d.Valid() && n < 2
    ensures |FileText(d, n)| == FileLength(d, n) <= 512 && DataSector(d, FileCluster(n), 0)[..FileLength(d, n)] == FileText(d, n)
  {
    assert DataSector(d, FileCluster(n), 0) == Over(Zeros(SECTOR_SIZE), 0, FileText(d, n));
  }

  /** The sectors of a cluster of the dump. */
  lemma {:induction false} DumpCluster(d: Source, cluster: nat, sectors: nat)
    requires d.Valid() && CLUS_CRASH_START <= cluster < CLUS_CRASH_LAST && sectors <= SECTORS_PER_CLUSTER
    ensures var from := 1024 * (cluster - CLUS_CRASH_START);
      ClusterData(d, cluster, sectors) == Dump(SRAM_BASE + from, d.memory[from..from + 128 * sectors])
  {
    hide Dump;
    var from := 1024 * (cluster - CLUS_CRASH_START);
    if sectors == 0 {
      EmptyDumpText(SRAM_BASE + from);
      assert d.memory[from..from] == [];
    } else {
      DumpCluster(d, cluster, sectors - 1);
      var middle := from + 128 * (sectors - 1);
      DumpAppend(SRAM_BASE + from, d.memory[from..middle], d.memory[middle..middle + 128]);
      assert d.memory[from..middle + 128] == d.memory[from..middle] + d.memory[middle..middle + 128];
    }
  }

  lemma EmptyDumpText(addr: nat)
    ensures Dump(addr, []) == []
  {
  }

  /** The next cluster goes on with the dump. */
  lemma MoreOfDump(d: Source, cluster: nat, text: seq<Byte>)
    requires d.Valid()
    ensures |ClusterData(d, cluster, SECTORS_PER_CLUSTER)| == 4096
    ensures (|text| % 4096 == 0 && cluster == CLUS_CRASH_START + |text| / 4096 < CLUS_CRASH_LAST
             && text == Dump(SRAM_BASE, d.memory[..|text| / 4])) ==>
      text + ClusterData(d, cluster, SECTORS_PER_CLUSTER) == Dump(SRAM_BASE, d.memory[..|text| / 4 + 1024])
  {
    hide Dump;
    if CLUS_CRASH_START <= cluster < CLUS_CRASH_LAST && |text| == 4096 * (cluster - CLUS_CRASH_START) {
      var from := |text| / 4;
      DumpCluster(d, cluster, SECTORS_PER_CLUSTER);
      DumpAppend(SRAM_BASE, d.memory[..from], d.memory[from..from + 1024]);
      assert d.memory[..from + 1024] == d.memory[..from] + d.memory[from..from + 1024];
    }
  }

  /** The dump as a host reads it. */
  method ReadCrashDump(mem: array<Byte>, serial: seq<Byte>, index: seq<Byte>, info: seq<Byte>, fatCopy: nat)
    returns (text: seq<Byte>)
    requires Source(mem[..], serial, index, info).Valid() && fatCopy < FAT_COUNT
    ensures text == Dump(SRAM_BASE, mem[..MEM_SIZE])
  {
    hide Dump, Ascii;
    var found, ended;
    found, text, ended := ReadFile(mem, serial, index, info, Ascii("CRASHDMPXXD"), fatCopy);
  }

  /** Parsing the file a host reads gives back all of memory, with its addresses and its printable characters. */
  method RecoverMemory(mem: array<Byte>, serial: seq<Byte>, index: seq<Byte>, info: seq<Byte>, fatCopy: nat)
    returns (recovered: seq<nat>, text: seq<Byte>)
    requires Source(mem[..], serial, index, info).Valid() && fatCopy < FAT_COUNT
    ensures recovered == mem[..MEM_SIZE] && |text| == CRASH_LEN
    ensures LinesShow(0x2000_0000, mem[..MEM_SIZE], text)
  {
    text := ReadCrashDump(mem, serial, index, info, fatCopy);
    ghost var all := mem[..MEM_SIZE];
    DumpRoundTrip(SRAM_BASE, all);
    recovered := DumpValue(text);
    DumpShows(SRAM_BASE, all);
  }

  /** The cluster after the last one of the file is linked as well, and to a free cluster: the patch for the last cluster
      never ends the chain. */
  lemma ChainHasNoEnd()
    ensures CLUS_CRASH_START + CRASH_LEN / 4096 == CLUS_CRASH_LAST
    ensures FatEntry(CLUS_CRASH_LAST) == CLUS_CRASH_LAST + 1 && FatEntry(CLUS_CRASH_LAST + 1) == 0
  {
  }
}
