/**
 The virtual disk as a host sees it, who knows nothing but the FAT format: from the boot record, the directory and the
 table to the bytes of the files.
 */
module DiskHost {
  import opened Arithmetic
  import opened Flash
  import opened FatTable
  import opened DiskImage
  import opened VirtualDisk

  /** A disk with the boot record that describes it. */
  ghost predicate Described(d: Disk)
  {
    Valid(d) && TableFits(d) && d.boot == BootRecord(MediaBlocks(d.flashSize, d.eepromEnd))
  }

  lemma {:induction false} HostGeometry(d: Disk)
    requires Described(d)
    ensures var b := ReadBlock(d, 0);
            && Le16At(b, 11) == 512 && b[13] == 4 && ClusterBytes(b) == 2048
            && RootSector(b) == ROOT_BLOCK && DataSector(b) == 4
            && Le16At(b, 14) == 1 && b[16] == 2 && Le16At(b, 22) == 1 // the tables are blocks 1 and 2
            && Le16At(b, 19) == (FileSectors(d.flashSize) + FileSectors(d.eepromEnd) + 32) % 0x1_0000
            && b[510] == 0x55 && b[511] == 0xAA && forall i :: 62 <= i < 510 ==> b[i] == 0
  {
    hide BootRecord, ValidFlash, RootSector, DataSector, Le16At, ClusterBytes, FileSectors;
    var b := ReadBlock(d, 0);
    assert b[..62] == d.boot;
    RecordGeometry(b, MediaBlocks(d.flashSize, d.eepromEnd));
  }

  /** The block in which a host looks for byte i of a file, from the clusters it has visited. */
  function HostBlock(d: Disk, path: seq<nat>, i: nat): (n: nat)
    requires Described(d) && i / 2048 < |path| && path[i / 2048] >= 2
  {
    HostGeometry(d);
    var b := ReadBlock(d, 0);
    SectorOf(DataSector(b), b[13], Le16At(b, 11), path[i / ClusterBytes(b)], i % ClusterBytes(b))
  }

  /** Byte i of a file, as a host reads it. */
  function HostByte(d: Disk, path: seq<nat>, i: nat): Octet
    requires Described(d) && i / 2048 < |path| && path[i / 2048] >= 2
  {
    ReadBlock(d, HostBlock(d, path, i))[i % 512]
  }

  /** For consecutive clusters, the host's block of byte i lies i / 512 blocks behind the file's first. */
  lemma {:induction false} HostBlockIs(d: Disk, c: nat, n: nat, i: nat)
    requires Described(d) && 2 <= c <= LAST_CLUSTER && i / 2048 < n
    ensures HostBlock(d, Clusters(c, n), i) == StartBlock(c) + i / 512
  {
    hide ReadBlock, ValidFlash, RootSector, DataSector, Le16At, ClusterBytes, Described;
    HostGeometry(d);
    assert Clusters(c, n)[i / 2048] == c + i / 2048;
    assert StartBlock(c) == 4 + (c - 2) * 4;
    assert i / 2048 * 4 + i % 2048 / 512 == i / 512;
  }

  lemma {:induction false} ByteInFile(i: nat, size: nat)
    requires i < size
    ensures i / 512 < FileSectors(size) && i / 2048 < FileClusters(size)
  {
  }

  /** What the host's block for byte i of the FLASH file holds, wherever the file starts. */
  lemma {:induction false} FlashByte(d: Disk, i: nat)
    requires Described(d) && FlashCluster(d) >= 2 && i < d.flashSize
    requires !InEepromFile(d, FlashStart(d) + i / 512)
    ensures var n := FlashStart(d) + i / 512;
            n > ROOT_BLOCK && InFlashFile(d, n) && ReadBlock(d, n)[i % 512] == d.flash.mem[i]
  {
    hide Table, FileClusters, InFile, StartBlock, ValidFlash, BootRecord, MediaBlocks;
    FlashBlockOf(d, i);
    var n := FlashStart(d) + i / 512;
    assert i / 512 * 512 + i % 512 == i;
    assert FlashBlock(d, n)[i % 512] == d.flash.mem[i];
  }

  lemma {:induction false} EepromByte(d: Disk, i: nat)
    requires Described(d) && EepromCluster(d) >= 2 && i < d.eepromEnd
    ensures var n := EepromStart(d) + i / 512;
            n > ROOT_BLOCK && InEepromFile(d, n) && ReadBlock(d, n)[i % 512] == d.eeprom[i]
  {
    hide Table, FileClusters, InFile, StartBlock, ValidFlash, BootRecord, MediaBlocks;
    EepromBlockOf(d, i);
    var n := EepromStart(d) + i / 512;
    assert i / 512 * 512 + i % 512 == i;
    assert EepromBlock(d, n)[i % 512] == d.eeprom[i];
  }

  /** Block numbers of a file whose chain fits the table do not wrap. */
  lemma {:induction false} FileBlocksFit(c: nat, size: nat)
    requires c >= 2 && c + FileClusters(size) <= LAST_CLUSTER + 1
    ensures StartBlock(c) == 4 + (c - 2) * 4 && StartBlock(c) + FileSectors(size) <= 0x1_0000
  {
    SectorsOfClusters(size);
  }

  /**
   The FLASH file, byte by byte: a host that follows the served table from the file's first cluster finds byte i of
   the flash as byte i of the file.
   */
  lemma {:induction false} HostReadsFlash(d: Disk, path: seq<nat>, i: nat)
    requires IsDefault(d) && Described(d) && d.eepromEnd > 0 && i < d.flashSize
    requires Walks(ReadBlock(d, 1), path) && path[0] == FlashCluster(d)
    ensures i / 2048 < |path| && path[i / 2048] >= 2 && HostByte(d, path, i) == d.flash.mem[i]
  {
    hide ReadBlock, ValidFlash, StartBlock, EndBlock, FileClusters, FileSectors, Walks, HostBlock, Described;
    DefaultTableServes(d);
    var c, n := FlashCluster(d), FileClusters(d.flashSize);
    ByteInFile(i, d.flashSize);
    PathIs(ReadBlock(d, 1), c, n, path);
    HostBlockIs(d, c, n, i);
    FlashStored(d, i);
    FlashByte(d, i);
  }

  lemma {:induction false} PathIs(t: seq<Octet>, a: nat, n: nat, path: seq<nat>)
    requires |t| == SECTOR && Serves(t, a, n) && n > 0 && Walks(t, path) && path[0] == a
    ensures path == Clusters(a, n)
  {
    hide Walks;
    assert path != [] by { WalksSome(t, path); }
  }

  lemma {:induction false} WalksSome(t: seq<Octet>, path: seq<nat>)
    requires |t| == SECTOR && Walks(t, path)
    ensures path != []
  {
  }

  lemma {:induction false} FlashStored(d: Disk, i: nat)
    requires IsDefault(d) && i < d.flashSize
    ensures !InEepromFile(d, FlashStart(d) + i / 512)
  {
    hide ValidFlash, EndBlock;
    ByteInFile(i, d.flashSize);
    FileBlocksFit(2, d.flashSize);
    InFileBounds(FlashStart(d) + i / 512, FlashStart(d), d.flashSize);
    FilesApart(d, FlashStart(d) + i / 512);
  }

  /** The same for the EEPROM file; its size is one byte less than the memory. */
  lemma {:induction false} HostReadsEeprom(d: Disk, path: seq<nat>, i: nat)
    requires IsDefault(d) && Described(d) && d.flashSize > 0 && i < d.eepromEnd
    requires Walks(ReadBlock(d, 2), path) && path[0] == EepromCluster(d)
    ensures i / 2048 < |path| && path[i / 2048] >= 2 && HostByte(d, path, i) == d.eeprom[i]
  {
    hide ReadBlock, ValidFlash, StartBlock, EndBlock, FileClusters, FileSectors, Walks, HostBlock, Described;
    DefaultTableServes(d);
    var c, n := EepromCluster(d), FileClusters(d.eepromEnd);
    ByteInFile(i, d.eepromEnd);
    PathIs(ReadBlock(d, 2), c, n, path);
    HostBlockIs(d, c, n, i);
    EepromByte(d, i);
  }

  // ---------------------------------------------------------------------------
  // Writing

  /**
   Writing the host's block for sector k of the FLASH file stores the sector there, wherever the file starts; the
   EEPROM changes only if that block belongs to its file too.
   */
  lemma {:induction false} HostWritesFlash(d: Disk, k: nat, data: seq<Octet>)
    requires Described(d) && FlashCluster(d) >= 2 && k * 512 < d.flashSize && |data| == SECTOR
    ensures (k + 1) * 512 <= |d.flash.mem|
    ensures var n := FlashStart(d) + k;
            var r := WriteBlock(d, n, data);
            && r == d.(flash := d.flash.(mem := SetPage(d.flash.mem, k * 512, data)), eeprom := r.eeprom)
            && (!InEepromFile(d, n) ==> r.eeprom == d.eeprom)
  {
    hide InFile, StartBlock, ValidFlash, BootRecord, MediaBlocks, SetPage, FileClusters;
    FlashBlockOf(d, k * 512);
  }

  lemma {:induction false} FlashBlockOf(d: Disk, i: nat)
    requires Described(d) && FlashCluster(d) >= 2 && i < d.flashSize
    ensures i / 512 * 512 + SECTOR <= |d.flash.mem|
    ensures var n := FlashStart(d) + i / 512; n > ROOT_BLOCK && InFlashFile(d, n)
  {
    hide FileClusters, EndBlock, ValidFlash, BootRecord, MediaBlocks;
    ByteInFile(i, d.flashSize);
    FileBlocksFit(FlashCluster(d), d.flashSize);
    InFileBounds(FlashStart(d) + i / 512, FlashStart(d), d.flashSize);
    BlockInFile(i / 512, d.flashSize);
  }

  lemma {:induction false} HostWritesEeprom(d: Disk, k: nat, data: seq<Octet>)
    requires Described(d) && EepromCluster(d) >= 2 && k * 512 < d.eepromEnd && |data| == SECTOR
    ensures (k + 1) * 512 <= |d.eeprom|
    ensures var n := EepromStart(d) + k;
            var r := WriteBlock(d, n, data);
            && r == d.(eeprom := SetPage(d.eeprom, k * 512, data), flash := r.flash)
            && (!InFlashFile(d, n) ==> r.flash == d.flash)
  {
    hide Valid, TableFits, InFile, StartBlock, BootRecord, MediaBlocks, SetPage, WriteFlashBlock, WriteEepromBlock;
    DescribedFacts(d);
    EepromBlockOf(d, k * 512);
    var n := EepromStart(d) + k;
    NotInFlash(d, n, data);
    InEeprom(WriteFlashBlock(d, n, data), n, k, data);
  }

  lemma {:induction false} DescribedFacts(d: Disk)
    requires Described(d)
    ensures Valid(d) && |d.entries| == DIRECTORY_BYTES
  {
  }

  lemma {:induction false} InEeprom(d: Disk, n: nat, k: nat, data: seq<Octet>)
    requires Valid(d) && |data| == SECTOR && InEepromFile(d, n) && n == EepromStart(d) + k
    ensures (k + 1) * SECTOR <= |d.eeprom|
    ensures WriteEepromBlock(d, n, data) == d.(eeprom := SetPage(d.eeprom, k * SECTOR, data))
  {
    hide StartBlock, EndBlock, FileSectors, SetPage, ValidFlash;
    InFileBounds(n, EepromStart(d), d.eepromEnd);
    BlockInEeprom(k, d.eepromEnd);
  }

  lemma {:induction false} EepromBlockOf(d: Disk, i: nat)
    requires Described(d) && EepromCluster(d) >= 2 && i < d.eepromEnd
    ensures i / 512 * 512 + SECTOR <= |d.eeprom|
    ensures var n := EepromStart(d) + i / 512; n > ROOT_BLOCK && InEepromFile(d, n)
  {
    hide FileClusters, EndBlock, ValidFlash, BootRecord, MediaBlocks;
    ByteInFile(i, d.eepromEnd);
    FileBlocksFit(EepromCluster(d), d.eepromEnd);
    InFileBounds(EepromStart(d) + i / 512, EepromStart(d), d.eepromEnd);
    BlockInEeprom(i / 512, d.eepromEnd);
  }

  lemma {:induction false} NotInFlash(d: Disk, n: nat, data: seq<Octet>)
    requires Valid(d) && |data| == SECTOR
    ensures !InFlashFile(d, n) ==> WriteFlashBlock(d, n, data) == d
  {
  }

  /** Blocks outside both files read as zeros. */
  lemma {:induction false} UnusedReadsZero(d: Disk, n: nat, i: nat)
    requires Described(d) && n > ROOT_BLOCK && !IsStored(d, n) && i < SECTOR
    ensures ReadBlock(d, n)[i] == 0
  {
    hide Table, FileClusters, EndBlock, ValidFlash, BootRecord, MediaBlocks;
  }

  /** The blocks in which a host looks for the first n sectors of a file. */
  function HostBlocks(d: Disk, path: seq<nat>, n: nat): (r: seq<nat>)
    requires Described(d) && n <= 4 * |path| && forall c :: c in path ==> c >= 2
    ensures |r| == n
  {
    seq(n, k requires 0 <= k < n =>
          assert path[k * 512 / 2048] in path; HostBlock(d, path, k * 512))
  }

  /** What a host writes to store an image in these blocks. */
  function CopyOps(blocks: seq<nat>, image: seq<Octet>): (ops: seq<BlockWrite>)
    requires |image| == 512 * |blocks|
    ensures |ops| == |blocks| && WholeBlocks(ops)
  {
    seq(|blocks|, k requires 0 <= k < |blocks| => BlockWrite(blocks[k], image[k * 512..(k + 1) * 512]))
  }

  /** Consecutive blocks from the start of the FLASH file on, from block k on. */
  lemma {:induction false} CopyStores(d: Disk, blocks: seq<nat>, image: seq<Octet>, k: nat)
    requires IsDefault(d) && Described(d) && |image| == d.flashSize == 512 * |blocks| && k <= |blocks|
    requires forall j :: 0 <= j < |blocks| ==> blocks[j] == FlashStart(d) + j
    ensures WholeBlocks(CopyOps(blocks, image)[k..])
    ensures AfterWrites(d, CopyOps(blocks, image)[k..]) ==
            d.(flash := d.flash.(mem := SetPage(d.flash.mem, k * 512, image[k * 512..])))
    decreases |blocks| - k
  {
    hide WriteBlock, StartBlock, FileSectors, EndBlock, ValidFlash, BootRecord, MediaBlocks, SetPage, FileClusters;
    var ops := CopyOps(blocks, image);
    if k == |blocks| {
      SetNothing(d.flash.mem, |image|);
    } else {
      var i, data := k * 512, image[k * 512..(k + 1) * 512];
      assert i / 512 == k;
      FlashStored(d, i);
      HostWritesFlash(d, k, data);
      WritesNext(d, ops, k);
      CopyStores(WriteBlock(d, blocks[k], data), blocks, image, k + 1);
      SetTwice(d.flash.mem, i, data, image[(k + 1) * 512..]);
      assert data + image[(k + 1) * 512..] == image[i..];
    }
  }

  lemma {:induction false} SetTwice(mem: seq<Octet>, a: nat, x: seq<Octet>, y: seq<Octet>)
    requires a + |x| + |y| <= |mem|
    ensures SetPage(SetPage(mem, a, x), a + |x|, y) == SetPage(mem, a, x + y)
  {
  }

  /**
   A host that replaces the FLASH file, sector by sector where the table tells it to, programs the application section
   with the image, and touches neither the rest of the flash nor the EEPROM.
   */
  lemma {:induction false} HostCopies(d: Disk, path: seq<nat>, image: seq<Octet>)
    requires IsDefault(d) && Described(d) && d.eepromEnd > 0 && |image| == d.flashSize > 0
    requires Walks(ReadBlock(d, 1), path) && path[0] == FlashCluster(d)
    ensures |image| / 512 <= 4 * |path| && (forall c :: c in path ==> c >= 2) && |image| % 512 == 0
    ensures var r := AfterWrites(d, CopyOps(HostBlocks(d, path, |image| / 512), image));
            r.flash.mem == image + d.flash.mem[d.flashSize..] && r.eeprom == d.eeprom && r.entries == d.entries
  {
    hide ReadBlock, ValidFlash, StartBlock, EndBlock, FileClusters, Walks, HostBlock, Described, AfterWrites;
    DefaultTableServes(d);
    SomeClusters(d.flashSize);
    var n := FileClusters(d.flashSize);
    PathIs(ReadBlock(d, 1), 2, n, path);
    SectorsOfClusters(d.flashSize);
    var blocks := HostBlocks(d, path, |image| / 512);
    forall j | 0 <= j < |blocks| ensures blocks[j] == FlashStart(d) + j {
      HostBlockIs(d, 2, n, j * 512);
    }
    CopyStores(d, blocks, image, 0);
    assert image[0..] == image && CopyOps(blocks, image)[0..] == CopyOps(blocks, image);
  }

  lemma {:induction false} SomeClusters(size: nat)
    requires size > 0
    ensures FileClusters(size) > 0
  {
  }

  // ---------------------------------------------------------------------------
  // The directory

  /** The directory block reads as it was last written, as far as it is kept. */
  lemma {:induction false} RootWriteRead(d: Disk, data: seq<Octet>)
    requires Described(d) && |data| == SECTOR
    ensures var r := WriteBlock(d, ROOT_BLOCK, data);
            && r == d.(entries := data[..160])
            && FlashCluster(r) == Le16At(data, 90) && EepromCluster(r) == Le16At(data, 154)
            && (TableFits(r) ==> ReadBlock(r, 3)[..160] == data[..160])
  {
    hide Table, FileClusters, ValidFlash, BootRecord, MediaBlocks;
  }

  /** Where a host finds the files of a disk as it is at power-up. */
  lemma {:induction false} HostFindsFiles(d: Disk)
    requires Described(d) && d.entries == Directory(d.flashSize, DefaultEepromCluster(d.flashSize), d.eepromEnd)
    requires DefaultEepromCluster(d.flashSize) < 0x1_0000 && d.flashSize < 0x1_0000_0000 && d.eepromEnd < 0x1_0000_0000
    ensures var root := ReadBlock(d, 3);
            && FindEntry(root, Ascii("FLASH   BIN"), 0) == 2 && FindEntry(root, Ascii("EEPROM  BIN"), 0) == 4
            && Le16At(root, 64 + 26) == FlashCluster(d) == 2 && Le32At(root, 64 + 28) == d.flashSize
            && Le16At(root, 128 + 26) == EepromCluster(d) == DefaultEepromCluster(d.flashSize)
            && Le32At(root, 128 + 28) == d.eepromEnd
            && forall i :: 160 <= i < SECTOR ==> root[i] == 0
  {
    hide Table, FileClusters, ValidFlash, BootRecord, MediaBlocks, Directory;
    var root := ReadBlock(d, 3);
    assert root[..160] == d.entries;
    DirectoryReads(root, d.flashSize, DefaultEepromCluster(d.flashSize), d.eepromEnd);
    assert root[90] == d.entries[90] && root[91] == d.entries[91];
    assert root[154] == d.entries[154] && root[155] == d.entries[155];
  }
}
