/** The mass-storage boot loader itself: the memories behind the virtual disk, and the block transfers. */
module DiskLoader {
  import opened Arithmetic
  import opened Flash
  import opened FatTable
  import opened DiskImage
  import opened VirtualDisk
  import opened DiskHost

  class Loader {
    var flash: Flash
    var eeprom: array<Octet>
    var fileEntries: seq<Octet>
    const bootBlock: seq<Octet>
    const flashFileSize: nat
    const eepromFileSize: nat

    ghost function Disk(): Disk
      reads this, eeprom
    {
      VirtualDisk.Disk.Disk(flash, eeprom[..], fileEntries, bootBlock, flashFileSize, eepromFileSize)
    }

    /** The loader at power-up; a disk of the right size has its default layout. */
    constructor (flash: Flash, eeprom: array<Octet>, flashFileSize: nat)
      requires eeprom.Length > 0
      ensures this.flash == flash && this.eeprom == eeprom && this.flashFileSize == flashFileSize
      ensures fileEntries == Directory(flashFileSize, DefaultEepromCluster(flashFileSize), eeprom.Length - 1)
      ensures Fits(flash, eeprom.Length, flashFileSize) ==> IsDefault(Disk()) && Described(Disk())
    {
      this.flash, this.eeprom, this.flashFileSize, eepromFileSize := flash, eeprom, flashFileSize, eeprom.Length - 1;
      bootBlock := BootRecord(MediaBlocks(flashFileSize, eeprom.Length - 1));
      fileEntries := Directory(flashFileSize, DefaultEepromCluster(flashFileSize), eeprom.Length - 1);
      new;
      if Fits(flash, eeprom.Length, flashFileSize) {
        StartsDefault(Disk());
      }
    }

    /** Stores a block in flash: every page is erased before its first word and written after its last. */
    method StoreBlock(address: nat, block: array<Octet>)
      requires ValidFlash(flash) && flash.temp == Blank(PageSize(flash)) && SECTOR % PageSize(flash) == 0
      requires address % SECTOR == 0 && address + SECTOR <= |flash.mem| && block.Length == SECTOR
      modifies this`flash
      ensures flash == old(flash).(mem := SetPage(old(flash.mem), address, block[..]))
    {
      hide Erase, Fill, Write, Streamed, Streaming, SetPage;
      ghost var mem, size := flash.mem, PageSize(flash);
      ghost var full: seq<Octet>, rest: seq<Octet> := [], [];
      StartStream(mem, size, address, flash);
      var a, i := address, 0;
      ghost var words := 0;
      while i < SECTOR
        invariant i == |full + rest| == 2 * words <= SECTOR && a == address + i
        invariant Streaming(mem, size, address, full, rest)
        invariant flash == Streamed(mem, size, address, full, rest)
        invariant full + rest == block[..i]
      {
        PageFits(mem, size, address, full, rest);
        assert block[..i + 2] == block[..i] + [block[i], block[i + 1]];
        full, rest := StoreWord(a, block[i], block[i + 1], mem, size, address, full, rest);
        a := a + 2;
        i, words := i + 2, words + 1;
      }
      EndStream(mem, size, address, full, rest);
      assert full + rest == block[..] by { assert block[..SECTOR] == block[..]; }
    }

    /** Loads the next word; the ghosts are the whole pages stored and the bytes of the current page. */
    method StoreWord(a: nat, lo: Octet, hi: Octet, ghost mem: seq<Octet>, ghost size: nat, ghost base: nat,
                     ghost full: seq<Octet>, ghost rest: seq<Octet>)
      returns (ghost full': seq<Octet>, ghost rest': seq<Octet>)
      requires Streaming(mem, size, base, full, rest) && flash == Streamed(mem, size, base, full, rest)
      requires a == base + |full + rest| && base + |full| + size <= |mem|
      modifies this`flash
      ensures Streaming(mem, size, base, full', rest') && flash == Streamed(mem, size, base, full', rest')
      ensures full' + rest' == full + rest + [lo, hi]
    {
      hide Erase, Fill, Write, Streamed, Streaming;
      StreamingFacts(mem, size, base, full, rest);
      StreamWord(mem, size, base, full, rest, lo, hi);
      PageOfOffset(base + |full|, |rest|, size);
      if a % PageSize(flash) == 0 {
        flash := Erase(flash, a);
      }
      flash := Fill(flash, a, lo, hi);
      if |rest| + 2 == size {
        NextPage(base + |full|, size);
        full', rest' := full + (rest + [lo, hi]), [];
      } else {
        PageOfOffset(base + |full|, |rest| + 2, size);
        full', rest' := full, rest + [lo, hi];
      }
      if (a + 2) % PageSize(flash) == 0 {
        flash := Write(flash, a + 2 - PageSize(flash));
      }
    }

    method LoadBlock(address: nat, block: array<Octet>)
      requires address + SECTOR <= |flash.mem| && block.Length == SECTOR
      modifies block
      ensures block[..] == flash.mem[address..address + SECTOR]
    {
      for i := 0 to SECTOR
        invariant forall k :: 0 <= k < i ==> block[k] == flash.mem[address + k]
      {
        block[i] := flash.mem[address + i];
      }
    }

    /** Transfers a block of the FLASH file; other blocks are left to the EEPROM file. */
    method ReadWriteFlashFileBlock(number: nat, block: array<Octet>, read: bool)
      requires Valid(Disk()) && block.Length == SECTOR && block != eeprom
      modifies this`flash, block
      ensures read ==> Disk() == old(Disk())
      ensures read ==> block[..] == (if InFlashFile(Disk(), number) then FlashBlock(Disk(), number) else old(block[..]))
      ensures !read ==> block[..] == old(block[..]) && Disk() == WriteFlashBlock(old(Disk()), number, block[..])
    {
      hide SetPage, FileSectors, StartBlock, EndBlock, ValidFlash;
      var startBlock := StartBlock(fileEntries[90] as int + fileEntries[91] as int * 256);
      var endBlock := EndBlock(startBlock, flashFileSize);
      if flashFileSize == 0 || !(startBlock <= number && number <= endBlock) {
        return;
      }
      InFileBounds(number, startBlock, flashFileSize);
      BlockInFile(number - startBlock, flashFileSize);
      var address := (number - startBlock) * SECTOR;
      if read {
        LoadBlock(address, block);
      } else {
        StoreBlock(address, block);
      }
    }

    method ReadWriteEepromFileBlock(number: nat, block: array<Octet>, read: bool)
      requires Valid(Disk()) && block.Length == SECTOR && block != eeprom
      modifies eeprom, block
      ensures read ==> Disk() == old(Disk())
      ensures read ==>
        block[..] == (if InEepromFile(Disk(), number) then EepromBlock(Disk(), number) else old(block[..]))
      ensures !read ==> block[..] == old(block[..]) && Disk() == WriteEepromBlock(old(Disk()), number, block[..])
    {
      hide SetPage, FileSectors, StartBlock, EndBlock, ValidFlash;
      var startBlock := StartBlock(fileEntries[154] as int + fileEntries[155] as int * 256);
      var endBlock := EndBlock(startBlock, eepromFileSize);
      if eepromFileSize == 0 || !(startBlock <= number && number <= endBlock) {
        return;
      }
      InFileBounds(number, startBlock, eepromFileSize);
      BlockInEeprom(number - startBlock, eepromFileSize);
      var address := (number - startBlock) * SECTOR;
      if read {
        for i := 0 to SECTOR
          modifies block
          invariant forall k :: 0 <= k < i ==> block[k] == eeprom[address + k]
        {
          block[i] := eeprom[address + i];
        }
        assert block[..] == eeprom[..][address..address + SECTOR];
      } else {
        WriteEepromBytes(address, block);
      }
    }

    method WriteEepromBytes(address: nat, block: array<Octet>)
      requires address + SECTOR <= eeprom.Length && block.Length == SECTOR && block != eeprom
      modifies eeprom
      ensures eeprom[..] == SetPage(old(eeprom[..]), address, block[..])
    {
      for i := 0 to SECTOR
        invariant forall k :: 0 <= k < eeprom.Length ==>
          eeprom[k] == if address <= k < address + i then block[k - address] else old(eeprom[k])
      {
        eeprom[address + i] := block[i];
      }
    }

    /** A block arrives from the host. */
    method WriteBlockRequest(number: nat, data: seq<Octet>)
      requires Valid(Disk()) && |data| == SECTOR
      modifies this`flash, this`fileEntries, eeprom
      ensures Disk() == WriteBlock(old(Disk()), number, data)
    {
      hide WriteFlashBlock, WriteEepromBlock;
      var block := new Octet[SECTOR](i requires 0 <= i < SECTOR => data[i]);
      assert block[..] == data;
      match number {
        case 0 =>
        case 1 =>
        case 2 =>
        case 3 => fileEntries := block[..DIRECTORY_BYTES];
        case _ =>
          ReadWriteFlashFileBlock(number, block, false);
          ReadWriteEepromFileBlock(number, block, false);
      }
    }

    /** The host asks for a block. */
    method ReadBlockRequest(number: nat) returns (data: seq<Octet>)
      requires Valid(Disk()) && TableFits(Disk())
      modifies this`flash, eeprom
      ensures Disk() == old(Disk())
      ensures data == ReadBlock(old(Disk()), number)
    {
      hide Table, FileClusters;
      var block := new Octet[SECTOR](_ => 0);
      var entries := fileEntries;
      match number {
        case 0 => block := new Octet[SECTOR](i requires 0 <= i < SECTOR =>
          if i < |bootBlock| then bootBlock[i] else if i == 510 then 0x55 else if i == 511 then 0xAA else 0);
        case 1 => ServeFiles(block);
        case 2 => ServeFiles(block);
        case 3 => block := new Octet[SECTOR](i requires 0 <= i < SECTOR => if i < DIRECTORY_BYTES then entries[i]
          else 0);
        case _ =>
          ReadWriteFlashFileBlock(number, block, true);
          ReadWriteEepromFileBlock(number, block, true);
      }
      data := block[..];
    }

    /** Serves any run of block writes: the flash behind the FLASH file is not touched, wherever files are moved. */
    method WriteAll(ops: seq<BlockWrite>)
      requires Valid(Disk()) && WholeBlocks(ops)
      modifies this`flash, this`fileEntries, eeprom
      ensures Disk() == AfterWrites(old(Disk()), ops)
      ensures SameFrom(old(flash), flash, flashFileSize)
    {
      hide WriteBlock, WholeBlocks, SameFrom, ValidFlash;
      ghost var d := Disk();
      WritesBounded(d, ops);
      assert ops[0..] == ops;
      for i := 0 to |ops|
        invariant Valid(Disk()) && WholeBlocks(ops[i..])
        invariant AfterWrites(Disk(), ops[i..]) == AfterWrites(d, ops)
      {
        WritesNext(Disk(), ops, i);
        WriteBlockRequest(ops[i].block, ops[i].data);
      }
    }

    /** Serves any run of block writes that leaves the files where they are, and then a read. */
    method WriteAllThenRead(ops: seq<BlockWrite>, number: nat) returns (data: seq<Octet>)
      requires IsDefault(Disk()) && AllKeepLayout(Disk(), ops) && number != ROOT_BLOCK
      modifies this`flash, this`fileEntries, eeprom
      ensures WholeBlocks(ops) && Disk() == AfterWrites(old(Disk()), ops)
      ensures data == if IsStored(old(Disk()), number) then LastWrite(ops, number, ReadBlock(old(Disk()), number))
                      else ReadBlock(old(Disk()), number)
    {
      hide WriteBlock, ReadBlock, AllKeepLayout, IsStored, ValidFlash, AfterWrites, SameFrom;
      LastWriteWins(Disk(), ops, number);
      WriteAll(ops);
      data := ReadBlockRequest(number);
    }

    /** Serves a host that replaces the FLASH file where the served table tells it to. */
    method ReplaceFlashFile(ops: seq<BlockWrite>, ghost path: seq<nat>, ghost image: seq<Octet>)
      requires IsDefault(Disk()) && Described(Disk()) && eepromFileSize > 0 && |image| == flashFileSize > 0
      requires Walks(ReadBlock(Disk(), 1), path) && path[0] == FlashCluster(Disk())
      requires |image| == 512 * (|image| / 512) <= 2048 * |path| && forall c :: c in path ==> c >= 2
      requires ops == CopyOps(HostBlocks(Disk(), path, |image| / 512), image)
      modifies this`flash, this`fileEntries, eeprom
      ensures flash.mem == image + old(flash.mem)[flashFileSize..] && eeprom[..] == old(eeprom[..])
      ensures fileEntries == old(fileEntries)
    {
      hide IsDefault, Described, Walks, ReadBlock, HostBlocks, AfterWrites, SameFrom;
      DefaultIsValid(Disk());
      HostCopies(Disk(), path, image);
      WriteAll(ops);
    }

    method ServeFiles(block: array<Octet>)
      requires Valid(Disk()) && TableFits(Disk()) && block.Length == SECTOR && block != eeprom
      requires forall i :: 0 <= i < SECTOR ==> block[i] == 0
      modifies block
      ensures block[..] ==
              Table(FlashCluster(Disk()), FileClusters(flashFileSize), EepromCluster(Disk()),
                FileClusters(eepromFileSize))
    {
      hide Table;
      ServeTable(block, fileEntries[90] as int + fileEntries[91] as int * 256, FileClusters(flashFileSize),
                 fileEntries[154] as int + fileEntries[155] as int * 256, FileClusters(eepromFileSize));
    }
  }

  /** Sizes for which the disk works: whole blocks and pages, inside the memories and the table. */
  predicate Fits(flash: Flash, eepromSize: nat, flashSize: nat)
  {
    && PageSize(flash) >= 2 && PageSize(flash) % 2 == 0 && |flash.mem| % PageSize(flash) == 0
    && SECTOR % PageSize(flash) == 0 && flash.temp == Blank(PageSize(flash))
    && flashSize % SECTOR == 0 && flashSize <= |flash.mem| && flashSize < 0x1_0000_0000
    && 0 < eepromSize <= 0x1_0000 && eepromSize % SECTOR == 0
    && DefaultEepromCluster(flashSize) + FileClusters(eepromSize - 1) <= LAST_CLUSTER + 1
  }

  lemma {:induction false} StartsDefault(d: Disk)
    requires |d.eeprom| > 0 && Fits(d.flash, |d.eeprom|, d.flashSize) && d.eepromEnd == |d.eeprom| - 1
    requires d.boot == BootRecord(MediaBlocks(d.flashSize, d.eepromEnd))
    requires d.entries == Directory(d.flashSize, DefaultEepromCluster(d.flashSize), d.eepromEnd)
    ensures IsDefault(d) && Described(d)
  {
    hide BootRecord, MediaBlocks, Directory, FileClusters;
    var root := d.entries + seq<Octet>(SECTOR - 160, _ => 0);
    assert root[..160] == d.entries;
    DirectoryReads(root, d.flashSize, DefaultEepromCluster(d.flashSize), d.eepromEnd);
    assert root[90] == d.entries[90] && root[91] == d.entries[91];
    assert root[154] == d.entries[154] && root[155] == d.entries[155];
  }

  lemma {:induction false} DefaultIsValid(d: Disk)
    requires IsDefault(d)
    ensures Valid(d) && TableFits(d)
  {
  }

  lemma {:induction false} StartStream(mem: seq<Octet>, size: nat, address: nat, f: Flash)
    requires ValidFlash(f) && f == Idle(mem, size) && SECTOR % size == 0 && address % SECTOR == 0 && address <= |mem|
    ensures Streaming(mem, size, address, [], []) && f == Streamed(mem, size, address, [], [])
  {
    var q, r := address / SECTOR, SECTOR / size;
    assert address == size * (r * q);
    DivModUnique(address, size, r * q, 0);
    assert SetPage(mem, address, []) == mem;
  }

  lemma {:induction false} PageFits(mem: seq<Octet>, size: nat, base: nat, full: seq<Octet>, rest: seq<Octet>)
    requires Streaming(mem, size, base, full, rest) && SECTOR % size == 0 && |full + rest| < SECTOR
    requires base + SECTOR <= |mem|
    ensures base + |full| + size <= |mem|
  {
    var d := SECTOR / size - |full| / size;
    assert size * d == SECTOR - |full|;
    MulAtLeast(size, d);
  }

  /** When a whole block has been streamed, the last page is complete. */
  lemma {:induction false} EndStream(mem: seq<Octet>, size: nat, address: nat, full: seq<Octet>, rest: seq<Octet>)
    requires Streaming(mem, size, address, full, rest) && |full + rest| == SECTOR && SECTOR % size == 0
    ensures rest == [] && Streamed(mem, size, address, full, rest) == Idle(SetPage(mem, address, full + rest), size)
  {
    DivModUnique(SECTOR, size, |full| / size, |rest|);
    assert full + rest == full;
  }
}
