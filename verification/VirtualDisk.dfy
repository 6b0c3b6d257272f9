/**
 The virtual FAT disk of the mass-storage boot loader: its geometry, its two files, and the blocks that
 a host reads and writes.
 */
module VirtualDisk {
  import opened Arithmetic
  import opened Flash
  import opened FatTable

  const SECTORS_PER_CLUSTER := 4
  const CLUSTER := 2048
  const FAT_BLOCK_1 := 1
  const FAT_BLOCK_2 := 2
  const ROOT_BLOCK := 3
  const DATA_START := 4
  const DIRECTORY_BYTES := 160

  // ---------------------------------------------------------------------------
  // Geometry

  function FileSectors(size: nat): nat
  {
    size / SECTOR + if size % SECTOR != 0 then 1 else 0
  }

  function FileClusters(size: nat): nat
  {
    size / CLUSTER + if size % CLUSTER != 0 then 1 else 0
  }

  function MediaBlocks(flashSize: nat, eepromSize: nat): nat
  {
    FileSectors(flashSize) + FileSectors(eepromSize) + 32
  }

  /** The first block of a file that starts at this cluster; block numbers have 16 bits. */
  function StartBlock(cluster: nat): nat
  {
    (DATA_START + (cluster - 2) * SECTORS_PER_CLUSTER) % 0x1_0000
  }

  /** A cluster holds four blocks, and cluster 2 starts at block 4; the number wraps at 16 bits. */
  lemma {:induction false} StartBlockIs(cluster: nat)
    requires cluster < 0x1_0000
    ensures StartBlock(cluster) < 0x1_0000 && (4 * cluster - 4 - StartBlock(cluster)) % 0x1_0000 == 0
  {
    var x := 4 * cluster - 4;
    assert StartBlock(cluster) == x % 0x1_0000;
    DivModUnique(x - x % 0x1_0000, 0x1_0000, x / 0x1_0000, 0);
  }

  /** The last block of a file that starts at this block; block numbers have 16 bits, so it can lie before the first. */
  function EndBlock(start: nat, size: nat): nat
  {
    (start + FileSectors(size) + 0xFFFF) % 0x1_0000
  }

  /** The block is one of the file's; a file of no bytes has none. */
  predicate InFile(block: nat, start: nat, size: nat)
  {
    size > 0 && start <= block <= EndBlock(start, size)
  }

  /** The range check bounds the block, wherever the file starts; it is exact if the block numbers do not wrap. */
  lemma {:induction false} InFileBounds(block: nat, start: nat, size: nat)
    ensures InFile(block, start, size) ==> start <= block < start + FileSectors(size)
    ensures start + FileSectors(size) <= 0x1_0000 ==>
              (InFile(block, start, size) <==> start <= block < start + FileSectors(size))
  {
    var n := start + FileSectors(size);
    assert size > 0 ==> FileSectors(size) > 0;
    if 0 < n <= 0x1_0000 {
      DivModUnique(n + 0xFFFF, 0x1_0000, 1, n - 1);
    }
  }

  function DefaultEepromCluster(flashSize: nat): nat
  {
    2 + FileClusters(flashSize)
  }

  lemma {:induction false} SectorsOfClusters(size: nat)
    ensures FileSectors(size) <= FileClusters(size) * SECTORS_PER_CLUSTER < FileSectors(size) + SECTORS_PER_CLUSTER
    ensures FileSectors(size) * SECTOR >= size
  {
  }

  /** For files of any size, the two default block ranges lie behind the root block, apart, and on the disk. */
  lemma {:induction false} DefaultLayout(flashSize: nat, eepromSize: nat)
    requires DATA_START + FileClusters(flashSize) * SECTORS_PER_CLUSTER < 0x1_0000
    ensures var f, e := StartBlock(2), StartBlock(DefaultEepromCluster(flashSize));
            && ROOT_BLOCK < f && f + FileSectors(flashSize) <= e
            && e + FileSectors(eepromSize) <= MediaBlocks(flashSize, eepromSize)
  {
    SectorsOfClusters(flashSize);
  }

  // ---------------------------------------------------------------------------
  // The disk

  /** The device's memories, its directory entries as bytes, and its constants. */
  datatype Disk = Disk(flash: Flash, eeprom: seq<Octet>, entries: seq<Octet>, boot: seq<Octet>, flashSize: nat,
                       eepromEnd: nat)

  /**
   The FLASH file is a whole number of blocks and lies in flash, pages divide blocks, the EEPROM file is one
   byte short of a whole number of blocks of EEPROM, and both chains fit the table.
   */
  ghost predicate Valid(d: Disk)
  {
    && ValidFlash(d.flash) && d.flash.temp == Blank(PageSize(d.flash)) && SECTOR % PageSize(d.flash) == 0
    && d.flashSize % SECTOR == 0 && d.flashSize <= |d.flash.mem|
    && |d.eeprom| == d.eepromEnd + 1 && |d.eeprom| % SECTOR == 0
    && |d.entries| == DIRECTORY_BYTES && |d.boot| <= SECTOR - 2
  }

  function FlashCluster(d: Disk): nat
    requires |d.entries| == DIRECTORY_BYTES
  {
    d.entries[90] as int + d.entries[91] as int * 256
  }

  function EepromCluster(d: Disk): nat
    requires |d.entries| == DIRECTORY_BYTES
  {
    d.entries[154] as int + d.entries[155] as int * 256
  }

  function FlashStart(d: Disk): nat
    requires |d.entries| == DIRECTORY_BYTES
  {
    StartBlock(FlashCluster(d))
  }

  function EepromStart(d: Disk): nat
    requires |d.entries| == DIRECTORY_BYTES
  {
    StartBlock(EepromCluster(d))
  }

  predicate InFlashFile(d: Disk, block: nat)
    requires |d.entries| == DIRECTORY_BYTES
  {
    InFile(block, FlashStart(d), d.flashSize)
  }

  predicate InEepromFile(d: Disk, block: nat)
    requires |d.entries| == DIRECTORY_BYTES
  {
    InFile(block, EepromStart(d), d.eepromEnd)
  }

  /** The table has room for both chains. */
  predicate TableFits(d: Disk)
    requires |d.entries| == DIRECTORY_BYTES
  {
    FlashCluster(d) + FileClusters(d.flashSize) <= LAST_CLUSTER + 1 &&
      EepromCluster(d) + FileClusters(d.eepromEnd) <= LAST_CLUSTER + 1
  }

  /** The files' clusters are the ones the loader starts with. */
  ghost predicate IsDefault(d: Disk)
  {
    && Valid(d) && FlashCluster(d) == 2 && EepromCluster(d) == DefaultEepromCluster(d.flashSize)
    && TableFits(d)
  }

  /** A file's bytes for one of its blocks. */
  function Block(mem: seq<Octet>, i: nat): (r: seq<Octet>)
    requires (i + 1) * SECTOR <= |mem|
    ensures |r| == SECTOR
  {
    mem[i * SECTOR..(i + 1) * SECTOR]
  }

  lemma {:induction false} BlockInFile(n: nat, size: nat)
    requires n < FileSectors(size) && size % SECTOR == 0
    ensures (n + 1) * SECTOR <= size
  {
  }

  lemma {:induction false} BlockInEeprom(n: nat, end: nat)
    requires n < FileSectors(end) && (end + 1) % SECTOR == 0
    ensures (n + 1) * SECTOR <= end + 1
  {
  }

  function FlashBlock(d: Disk, block: nat): (r: seq<Octet>)
    requires Valid(d) && InFlashFile(d, block)
    ensures |r| == SECTOR
  {
    InFileBounds(block, FlashStart(d), d.flashSize);
    BlockInFile(block - FlashStart(d), d.flashSize);
    Block(d.flash.mem, block - FlashStart(d))
  }

  function EepromBlock(d: Disk, block: nat): (r: seq<Octet>)
    requires Valid(d) && InEepromFile(d, block)
    ensures |r| == SECTOR
  {
    InFileBounds(block, EepromStart(d), d.eepromEnd);
    BlockInEeprom(block - EepromStart(d), d.eepromEnd);
    Block(d.eeprom, block - EepromStart(d))
  }

  /** What a host reads from a data block. */
  function DataBlock(d: Disk, block: nat): (r: seq<Octet>)
    requires Valid(d)
    ensures |r| == SECTOR
  {
    if InEepromFile(d, block) then EepromBlock(d, block)
    else if InFlashFile(d, block) then FlashBlock(d, block)
    else seq(SECTOR, _ => 0)
  }

  function ReadBlock(d: Disk, block: nat): (r: seq<Octet>)
    requires Valid(d) && TableFits(d)
    ensures |r| == SECTOR
  {
    if block == 0 then d.boot + seq(SECTOR - 2 - |d.boot|, _ => 0) + [0x55, 0xAA]
    else if block == FAT_BLOCK_1 || block == FAT_BLOCK_2 then
      Table(FlashCluster(d), FileClusters(d.flashSize), EepromCluster(d), FileClusters(d.eepromEnd))
    else if block == ROOT_BLOCK then d.entries + seq(SECTOR - DIRECTORY_BYTES, _ => 0)
    else DataBlock(d, block)
  }

  /** What writing a block does. Writes to the boot and FAT blocks are ignored. */
  function WriteBlock(d: Disk, block: nat, data: seq<Octet>): (r: Disk)
    requires Valid(d) && |data| == SECTOR
    ensures Valid(r) && r.flashSize == d.flashSize
  {
    if block < ROOT_BLOCK then d
    else if block == ROOT_BLOCK then d.(entries := data[..DIRECTORY_BYTES])
    else WriteEepromBlock(WriteFlashBlock(d, block, data), block, data)
  }

  function WriteFlashBlock(d: Disk, block: nat, data: seq<Octet>): (r: Disk)
    requires Valid(d) && |data| == SECTOR
    ensures Valid(r) && r == d.(flash := r.flash)
  {
    if InFlashFile(d, block) then
      InFileBounds(block, FlashStart(d), d.flashSize);
      BlockInFile(block - FlashStart(d), d.flashSize);
      d.(flash := d.flash.(mem := SetPage(d.flash.mem, (block - FlashStart(d)) * SECTOR, data)))
    else d
  }

  function WriteEepromBlock(d: Disk, block: nat, data: seq<Octet>): (r: Disk)
    requires Valid(d) && |data| == SECTOR
    ensures Valid(r) && r == d.(eeprom := r.eeprom)
  {
    if InEepromFile(d, block) then
      InFileBounds(block, EepromStart(d), d.eepromEnd);
      BlockInEeprom(block - EepromStart(d), d.eepromEnd);
      d.(eeprom := SetPage(d.eeprom, (block - EepromStart(d)) * SECTOR, data))
    else d
  }

  // ---------------------------------------------------------------------------
  // The disk as a map from block numbers to blocks

  /** The block holds a part of one of the files. */
  predicate IsStored(d: Disk, block: nat)
    requires |d.entries| == DIRECTORY_BYTES
  {
    InFlashFile(d, block) || InEepromFile(d, block)
  }

  lemma {:induction false} SetBlock(mem: seq<Octet>, i: nat, data: seq<Octet>, j: nat)
    requires (i + 1) * SECTOR <= |mem| && (j + 1) * SECTOR <= |mem| && |data| == SECTOR
    ensures Block(SetPage(mem, i * SECTOR, data), j) == if j == i then data else Block(mem, j)
  {
    var r := SetPage(mem, i * SECTOR, data);
    assert j < i ==> (j + 1) * SECTOR <= i * SECTOR;
    assert i < j ==> (i + 1) * SECTOR <= j * SECTOR;
  }

  /** Both files start behind the root block, and no block belongs to both. */
  lemma {:induction false} FilesApart(d: Disk, block: nat)
    requires IsDefault(d)
    ensures IsStored(d, block) ==> block > ROOT_BLOCK
    ensures !(InFlashFile(d, block) && InEepromFile(d, block))
  {
    DefaultLayout(d.flashSize, d.eepromEnd);
    InFileBounds(block, FlashStart(d), d.flashSize);
    InFileBounds(block, EepromStart(d), d.eepromEnd);
  }

  /** Writing a block of a file changes that block of the disk, and no other. */
  lemma {:induction false} WriteThenRead(d: Disk, n: nat, data: seq<Octet>, m: nat)
    requires IsDefault(d) && |data| == SECTOR && IsStored(d, n)
    ensures var r := WriteBlock(d, n, data);
            && IsDefault(r) && (forall k :: IsStored(r, k) <==> IsStored(d, k))
            && ReadBlock(r, m) == if m == n then data else ReadBlock(d, m)
  {
    hide DataBlock, WriteFlashBlock, WriteEepromBlock, StartBlock, Table;
    FilesApart(d, n);
    if InFlashFile(d, n) {
      FlashWriteRead(d, n, data, m);
    } else {
      EepromWriteRead(d, n, data, m);
    }
  }

  lemma {:induction false} FlashWriteRead(d: Disk, n: nat, data: seq<Octet>, m: nat)
    requires IsDefault(d) && |data| == SECTOR && InFlashFile(d, n)
    ensures WriteEepromBlock(WriteFlashBlock(d, n, data), n, data) == WriteFlashBlock(d, n, data)
    ensures DataBlock(WriteFlashBlock(d, n, data), m) == if m == n then data else DataBlock(d, m)
  {
    hide SetPage, FileSectors, FileClusters, StartBlock, EndBlock, Block, ValidFlash;
    FilesApart(d, n);
    FilesApart(d, m);
    InFileBounds(n, FlashStart(d), d.flashSize);
    InFileBounds(m, FlashStart(d), d.flashSize);
    BlockInFile(n - FlashStart(d), d.flashSize);
    if InFlashFile(d, m) {
      BlockInFile(m - FlashStart(d), d.flashSize);
      SetBlock(d.flash.mem, n - FlashStart(d), data, m - FlashStart(d));
    }
  }

  lemma {:induction false} EepromWriteRead(d: Disk, n: nat, data: seq<Octet>, m: nat)
    requires IsDefault(d) && |data| == SECTOR && InEepromFile(d, n)
    ensures WriteFlashBlock(d, n, data) == d
    ensures DataBlock(WriteEepromBlock(d, n, data), m) == if m == n then data else DataBlock(d, m)
  {
    hide SetPage, FileSectors, FileClusters, StartBlock, EndBlock, Block, ValidFlash;
    FilesApart(d, n);
    InFileBounds(n, EepromStart(d), d.eepromEnd);
    InFileBounds(m, EepromStart(d), d.eepromEnd);
    BlockInEeprom(n - EepromStart(d), d.eepromEnd);
    if InEepromFile(d, m) {
      BlockInEeprom(m - EepromStart(d), d.eepromEnd);
      SetBlock(d.eeprom, n - EepromStart(d), data, m - EepromStart(d));
    }
  }

  lemma {:induction false} WriteElsewhere(d: Disk, n: nat, data: seq<Octet>)
    requires IsDefault(d) && |data| == SECTOR && !IsStored(d, n) && n != ROOT_BLOCK
    ensures WriteBlock(d, n, data) == d
  {
  }

  datatype BlockWrite = BlockWrite(block: nat, data: seq<Octet>)

  /** A block write from a host that, when it updates the directory, leaves the files where they are. */
  ghost predicate KeepsLayout(d: Disk, op: BlockWrite)
    requires |d.entries| == DIRECTORY_BYTES
  {
    |op.data| == SECTOR &&
    (op.block == ROOT_BLOCK ==>
       forall i :: i in {90, 91, 154, 155} ==> op.data[i] == d.entries[i])
  }

  ghost predicate AllKeepLayout(d: Disk, ops: seq<BlockWrite>)
    requires |d.entries| == DIRECTORY_BYTES
  {
    forall op :: op in ops ==> KeepsLayout(d, op)
  }

  /** The same files at the same places. */
  ghost predicate SameLayout(d: Disk, r: Disk)
  {
    && IsDefault(d) && IsDefault(r) && r.flashSize == d.flashSize && r.eepromEnd == d.eepromEnd && r.boot == d.boot
    && forall i :: i in {90, 91, 154, 155} ==> r.entries[i] == d.entries[i]
  }

  predicate WholeBlocks(ops: seq<BlockWrite>)
  {
    forall op :: op in ops ==> |op.data| == SECTOR
  }

  /** The disk after a run of block writes, whatever they are. */
  function AfterWrites(d: Disk, ops: seq<BlockWrite>): (r: Disk)
    requires Valid(d) && WholeBlocks(ops)
    ensures Valid(r) && r.flashSize == d.flashSize
    decreases |ops|
  {
    if ops == [] then d
    else
      assert ops[0] in ops;
      AfterWrites(WriteBlock(d, ops[0].block, ops[0].data), ops[1..])
  }

  lemma {:induction false} OneWriteBounded(d: Disk, block: nat, data: seq<Octet>)
    requires Valid(d) && |data| == SECTOR
    ensures SameFrom(d.flash, WriteBlock(d, block, data).flash, d.flashSize)
  {
    hide ValidFlash, StartBlock, EndBlock, FileSectors;
    if InFlashFile(d, block) {
      InFileBounds(block, FlashStart(d), d.flashSize);
      BlockInFile(block - FlashStart(d), d.flashSize);
    }
  }

  /** Whatever a host writes, and wherever it moves the files, the flash behind the FLASH file is what it was. */
  lemma {:induction false} WritesBounded(d: Disk, ops: seq<BlockWrite>)
    requires Valid(d) && WholeBlocks(ops)
    ensures SameFrom(d.flash, AfterWrites(d, ops).flash, d.flashSize)
    decreases |ops|
  {
    hide WriteBlock, Valid;
    if ops != [] {
      assert ops[0] in ops;
      OneWriteBounded(d, ops[0].block, ops[0].data);
      WritesBounded(WriteBlock(d, ops[0].block, ops[0].data), ops[1..]);
    }
  }

  /** Writing keeps the layout, and reads of all blocks but the root block are as the write says. */
  lemma {:induction false} WriteKeepsLayout(d: Disk, op: BlockWrite)
    requires IsDefault(d) && KeepsLayout(d, op)
    ensures SameLayout(d, WriteBlock(d, op.block, op.data))
  {
    hide WriteFlashBlock, WriteEepromBlock, StartBlock, EndBlock, FileSectors, FileClusters;
  }

  lemma {:induction false} SameLayoutSame(d: Disk, r: Disk, m: nat)
    requires SameLayout(d, r)
    ensures IsStored(r, m) == IsStored(d, m)
    ensures forall op :: KeepsLayout(d, op) <==> KeepsLayout(r, op)
  {
    hide StartBlock, EndBlock, FileSectors, FileClusters;
  }

  /** What one write changes for a reader of block m. */
  lemma {:induction false} OneWrite(d: Disk, op: BlockWrite, m: nat)
    requires IsDefault(d) && KeepsLayout(d, op) && m != ROOT_BLOCK
    ensures var r := WriteBlock(d, op.block, op.data);
            && IsDefault(r)
            && ReadBlock(r, m) == if IsStored(d, m) && op.block == m then op.data else ReadBlock(d, m)
  {
    hide WriteFlashBlock, WriteEepromBlock, StartBlock, FileSectors, Table;
    FilesApart(d, op.block);
    WriteKeepsLayout(d, op);
    if op.block == ROOT_BLOCK {
    } else if IsStored(d, op.block) {
      WriteThenRead(d, op.block, op.data, m);
    } else {
      WriteElsewhere(d, op.block, op.data);
    }
  }

  lemma {:induction false} WritesNext(d: Disk, ops: seq<BlockWrite>, i: nat)
    requires i < |ops| && Valid(d) && WholeBlocks(ops[i..])
    ensures |ops[i].data| == SECTOR && WholeBlocks(ops[i + 1..])
    ensures AfterWrites(d, ops[i..]) == AfterWrites(WriteBlock(d, ops[i].block, ops[i].data), ops[i + 1..])
  {
    hide WriteBlock, Valid;
    var rest := ops[i..];
    assert rest[0] == ops[i] && rest[0] in rest && rest[1..] == ops[i + 1..];
  }

  /** The last data written to a block, or what it held before. */
  function LastWrite(ops: seq<BlockWrite>, m: nat, before: seq<Octet>): seq<Octet>
  {
    if ops == [] then before
    else LastWrite(ops[1..], m, if ops[0].block == m then ops[0].data else before)
  }

  /**
   After any run of block writes, every file block reads as last written, and every other data, boot or FAT block
   as before.
   */
  lemma {:induction false} LastWriteWins(d: Disk, ops: seq<BlockWrite>, m: nat)
    requires IsDefault(d) && AllKeepLayout(d, ops) && m != ROOT_BLOCK
    ensures WholeBlocks(ops) && IsDefault(AfterWrites(d, ops))
    ensures ReadBlock(AfterWrites(d, ops), m) ==
            if IsStored(d, m) then LastWrite(ops, m, ReadBlock(d, m)) else ReadBlock(d, m)
    decreases |ops|
  {
    hide ReadBlock, WriteBlock, IsStored;
    if ops != [] {
      var op := ops[0];
      assert op in ops;
      var r := WriteBlock(d, op.block, op.data);
      WriteKeepsLayout(d, op);
      SameLayoutSame(d, r, m);
      OneWrite(d, op, m);
      LastWriteWins(r, ops[1..], m);
    }
  }

  /** In the default layout both copies of the table that a host reads describe both files. */
  lemma {:induction false} DefaultTableServes(d: Disk)
    requires IsDefault(d) && d.flashSize > 0 && d.eepromEnd > 0
    ensures var t := ReadBlock(d, 1);
            && ReadBlock(d, 2) == t
            && GetEntry(t, 0) == MEDIA_ENTRY && GetEntry(t, 1) == END_OF_CHAIN
            && Serves(t, FlashCluster(d), FileClusters(d.flashSize))
            && Serves(t, EepromCluster(d), FileClusters(d.eepromEnd))
  {
    hide Table, GetEntry, Serves;
    var f, n, e, m := FlashCluster(d), FileClusters(d.flashSize), EepromCluster(d), FileClusters(d.eepromEnd);
    ReservedEntries(f, n, e, m);
    ServesEeprom(f, n, e, m);
    ServesFlashIff(f, n, e, m);
  }
}
