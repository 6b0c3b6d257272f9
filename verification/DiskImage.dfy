/** What the mass-storage boot loader puts on its virtual disk at power-up: the boot record and the directory. */
module DiskImage {
  import opened Arithmetic
  import opened Flash
  import opened FatTable

  function Le16(n: nat): (r: seq<Octet>)
    ensures |r| == 2
  {
    [n % 256, n / 256 % 256]
  }

  function Le32(n: nat): (r: seq<Octet>)
    ensures |r| == 4
  {
    [n % 256, n / 256 % 256, n / 0x1_0000 % 256, n / 0x100_0000 % 256]
  }

  function Ascii(text: string): (r: seq<Octet>)
    ensures |r| == |text|
  {
    seq<Octet>(|text|, i requires 0 <= i < |text| => text[i] as int % 256)
  }

  /** The geometry of a disk with so many blocks: 512-byte sectors, four to a cluster, two tables of one sector. */
  function Geometry(blocks: nat): (r: seq<Octet>)
    ensures |r| == 13
  {
    [0, 2, 4, 1, 0, 2, 16, 0, blocks % 256, blocks / 256 % 256, 0xF8, 1, 0]
  }

  function BootRecord(blocks: nat): (r: seq<Octet>)
    ensures |r| == 62 && r[11..24] == Geometry(blocks)
  {
    var head := [0xEB, 0x3C, 0x90] + Ascii("mkdosfs") + [0];
    var rest := Le16(blocks % 64) + Le16(blocks / 64) + Le32(0) + Le32(0) + Le16(0) + [0x29] + Le32(0x1234_5678)
                + Ascii("LUFA BOOT  ") + Ascii("FAT12   ");
    assert (head + Geometry(blocks) + rest)[11..24] == Geometry(blocks);
    head + Geometry(blocks) + rest
  }

  function VolumeEntry(): (r: seq<Octet>)
    ensures |r| == 32
  {
    Ascii("LUFA BOOT  ") + [0x08] + seq<Octet>(20, _ => 0)
  }

  /** A long name of up to thirteen characters, and the checksum that ties it to the entry behind it. */
  function LongName(name: string, checksum: Octet): (r: seq<Octet>)
    requires |name| == 13
    ensures |r| == 32
  {
    [0x41] + Wide(name[..5]) + [0x0F, 0x00, checksum] + Wide(name[5..11]) + [0, 0] + Wide(name[11..])
  }

  function Wide(text: string): (r: seq<Octet>)
    ensures |r| == 2 * |text|
  {
    seq<Octet>(2 * |text|, i requires 0 <= i < 2 * |text| => if i % 2 == 0 then text[i / 2] as int % 256 else 0)
  }

  function FileEntry(name: string, cluster: nat, size: nat): (r: seq<Octet>)
    requires |name| == 11
    ensures |r| == 32
  {
    Ascii(name) + [0x00] + seq<Octet>(10, _ => 0) + Le16(0x0820) + Le16(0x124E) + Le16(cluster) + Le32(size)
  }

  /** The directory: the volume label, and a long name and an entry for each file. */
  function Directory(flashSize: nat, eepromCluster: nat, eepromSize: nat): (r: seq<Octet>)
    ensures |r| == 160
  {
    VolumeEntry()
    + LongName("FLASH.BIN\0\0\0\0", 0x26) + FileEntry("FLASH   BIN", 2, flashSize)
    + LongName("EEPROM.BIN\0\0\0", 0x14) + FileEntry("EEPROM  BIN", eepromCluster, eepromSize)
  }

  // ---------------------------------------------------------------------------
  // How a host reads them

  function Le16At(b: seq<Octet>, k: nat): nat
    requires k + 2 <= |b|
  {
    b[k] as int + b[k + 1] as int * 256
  }

  function Le32At(b: seq<Octet>, k: nat): nat
    requires k + 4 <= |b|
  {
    Le16At(b, k) + Le16At(b, k + 2) * 0x1_0000
  }

  /** The checksum over a short name that its long name has to carry. */
  function NameChecksum(name: seq<Octet>): Octet
  {
    if name == [] then 0
    else
      var sum: nat := NameChecksum(name[..|name| - 1]);
      (sum / 2 + sum % 2 * 128 + name[|name| - 1]) % 256
  }

  /** The first entry of the directory with this short name; behind the last one if there is none. */
  function FindEntry(root: seq<Octet>, name: seq<Octet>, i: nat): (r: nat)
    requires |root| == SECTOR && i <= 16 && |name| == 11
    ensures i <= r <= 16
    decreases 16 - i
  {
    if i == 16 || root[32 * i..32 * i + 11] == name then i else FindEntry(root, name, i + 1)
  }

  /** The first sector of the root directory, and of the clusters. */
  function RootSector(b: seq<Octet>): nat
    requires |b| == SECTOR
  {
    Le16At(b, 14) + b[16] as int * Le16At(b, 22)
  }

  function DataSector(b: seq<Octet>): nat
    requires |b| == SECTOR && Le16At(b, 11) > 0
  {
    RootSector(b) + (Le16At(b, 17) * 32 + Le16At(b, 11) - 1) / Le16At(b, 11)
  }

  function ClusterBytes(b: seq<Octet>): nat
    requires |b| == SECTOR
  {
    b[13] as int * Le16At(b, 11)
  }

  /** The sector that holds byte i of a cluster, on a disk whose clusters start at sector first. */
  function SectorOf(first: nat, perCluster: nat, bytes: nat, cluster: nat, i: nat): nat
    requires bytes > 0 && cluster >= 2
  {
    var c: nat := cluster - 2;
    first + c * perCluster + i / bytes
  }

  lemma {:induction false} Le16Reads(b: seq<Octet>, k: nat, n: nat)
    requires k + 2 <= |b| && b[k..k + 2] == Le16(n)
    ensures Le16At(b, k) == n % 0x1_0000
  {
    assert b[k] == b[k..k + 2][0] && b[k + 1] == b[k..k + 2][1];
    DivLemma(n);
  }

  lemma {:induction false} DivLemma(n: nat)
    ensures n % 256 + n / 256 % 256 * 256 == n % 0x1_0000
  {
    var q := n / 256;
    DivModUnique(n, 0x1_0000, q / 256, q % 256 * 256 + n % 256);
  }

  lemma {:induction false} Le32Reads(b: seq<Octet>, k: nat, n: nat)
    requires k + 4 <= |b| && b[k..k + 4] == Le32(n) && n < 0x1_0000_0000
    ensures Le32At(b, k) == n
  {
    var w := b[k..k + 4];
    assert b[k] == w[0] && b[k + 1] == w[1] && b[k + 2] == w[2] && b[k + 3] == w[3];
    DivLemma(n);
    DivLemma(n / 0x1_0000);
    assert n / 0x1_0000 / 256 == n / 0x100_0000;
  }

  /** The geometry that a host reads from the boot record. */
  lemma {:induction false} RecordGeometry(b: seq<Octet>, blocks: nat)
    requires |b| == SECTOR && b[..62] == BootRecord(blocks)
    ensures Le16At(b, 11) == 512 && b[13] == 4 && ClusterBytes(b) == 2048
    ensures RootSector(b) == 3 && DataSector(b) == 4
    ensures Le16At(b, 14) == 1 && b[16] == 2 && Le16At(b, 22) == 1
    ensures Le16At(b, 19) == blocks % 0x1_0000 && b[21] == 0xF8
  {
    hide BootRecord;
    var g := Geometry(blocks);
    assert b[11..24] == g by { assert b[11..24] == b[..62][11..24]; }
    forall i | 0 <= i < 13 ensures b[11 + i] == g[i] {
      assert b[11..24][i] == g[i];
    }
    GeometryBytes(b, blocks);
  }

  lemma {:induction false} GeometryBytes(b: seq<Octet>, blocks: nat)
    requires |b| == SECTOR && forall i :: 0 <= i < 13 ==> b[11 + i] == Geometry(blocks)[i]
    ensures Le16At(b, 11) == 512 && b[13] == 4 && ClusterBytes(b) == 2048
    ensures RootSector(b) == 3 && DataSector(b) == 4
    ensures Le16At(b, 14) == 1 && b[16] == 2 && Le16At(b, 22) == 1
    ensures Le16At(b, 19) == blocks % 0x1_0000 && b[21] == 0xF8
  {
    var g := Geometry(blocks);
    assert b[11] == g[0] && b[12] == g[1] && b[13] == g[2] && b[14] == g[3] && b[15] == g[4] && b[16] == g[5];
    assert b[17] == g[6] && b[18] == g[7] && b[19] == g[8] && b[20] == g[9] && b[21] == g[10];
    assert b[22] == g[11] && b[23] == g[12];
    DivLemma(blocks);
  }

  lemma {:induction false} EntryParts(name: string, cluster: nat, size: nat)
    requires |name| == 11
    ensures var e := FileEntry(name, cluster, size);
            e[..11] == Ascii(name) && e[26..28] == Le16(cluster) && e[28..32] == Le32(size)
  {
    hide Ascii, Le16, Le32;
    var head := Ascii(name) + [0x00] + seq<Octet>(10, _ => 0) + Le16(0x0820) + Le16(0x124E);
    assert FileEntry(name, cluster, size) == head + Le16(cluster) + Le32(size);
    assert head[..11] == Ascii(name);
  }

  lemma {:induction false} SubSlice(s: seq<Octet>, a: nat, n: nat, b: nat, c: nat)
    requires a + n <= |s| && b <= c <= n
    ensures s[a..a + n][b..c] == s[a + b..a + c]
  {
    var x, y := s[a..a + n][b..c], s[a + b..a + c];
    assert |x| == |y| == c - b;
    forall i | 0 <= i < |x| ensures x[i] == y[i] {
      assert x[i] == s[a..a + n][b + i] == s[a + b + i];
    }
  }

  /** What a host reads from a directory entry. */
  lemma {:induction false} EntryReads(root: seq<Octet>, i: nat, name: string, cluster: nat, size: nat)
    requires |root| == SECTOR && i < 16 && |name| == 11 && cluster < 0x1_0000 && size < 0x1_0000_0000
    requires root[32 * i..32 * i + 32] == FileEntry(name, cluster, size)
    ensures root[32 * i..32 * i + 11] == Ascii(name)
    ensures Le16At(root, 32 * i + 26) == cluster && Le32At(root, 32 * i + 28) == size
  {
    hide Ascii, Le16, Le32, Le16At, Le32At, FileEntry;
    EntryParts(name, cluster, size);
    SubSlice(root, 32 * i, 32, 0, 11);
    SubSlice(root, 32 * i, 32, 26, 28);
    SubSlice(root, 32 * i, 32, 28, 32);
    assert root[32 * i..32 * i + 32][0..11] == root[32 * i..32 * i + 32][..11];
    Le16Reads(root, 32 * i + 26, cluster);
    Le32Reads(root, 32 * i + 28, size);
  }

  lemma {:induction false} DirectoryEntries(root: seq<Octet>, flashSize: nat, eepromCluster: nat, eepromSize: nat)
    requires |root| == SECTOR && root[..160] == Directory(flashSize, eepromCluster, eepromSize)
    ensures root[0] == 76 && root[32] == 0x41 && root[96] == 0x41 && root[45] == 0x26 && root[109] == 0x14
    ensures root[64..96] == FileEntry("FLASH   BIN", 2, flashSize)
    ensures root[128..160] == FileEntry("EEPROM  BIN", eepromCluster, eepromSize)
  {
    hide FileEntry, Wide;
    var dir := Directory(flashSize, eepromCluster, eepromSize);
    assert forall i :: 0 <= i < 160 ==> root[i] == root[..160][i];
    assert dir[64..96] == FileEntry("FLASH   BIN", 2, flashSize);
    assert dir[128..160] == FileEntry("EEPROM  BIN", eepromCluster, eepromSize);
    assert dir[0] == VolumeEntry()[0] && dir[32] == LongName("FLASH.BIN\0\0\0\0", 0x26)[0];
    assert dir[45] == LongName("FLASH.BIN\0\0\0\0", 0x26)[13] && dir[109] == LongName("EEPROM.BIN\0\0\0", 0x14)[13];
    assert root[64..96] == dir[64..96] && root[128..160] == dir[128..160];
  }

  lemma {:induction false} Found(root: seq<Octet>, name: seq<Octet>, i: nat, k: nat)
    requires |root| == SECTOR && i <= k < 16 && |name| == 11 && root[32 * k..32 * k + 11] == name
    requires forall j :: i <= j < k ==> root[32 * j] != name[0]
    ensures FindEntry(root, name, i) == k
    decreases k - i
  {
    if i < k {
      assert root[32 * i..32 * i + 11][0] != name[0];
      Found(root, name, i + 1, k);
    }
  }

  lemma {:induction false} FirstLetters()
    ensures Ascii("FLASH   BIN")[0] == 70 && Ascii("EEPROM  BIN")[0] == 69
  {
  }

  /** The directory that a host reads: where it finds each file, and that the long names belong to the short ones. */
  lemma {:induction false} DirectoryReads(root: seq<Octet>, flashSize: nat, eepromCluster: nat, eepromSize: nat)
    requires |root| == SECTOR && root[..160] == Directory(flashSize, eepromCluster, eepromSize)
    requires flashSize < 0x1_0000_0000 && eepromCluster < 0x1_0000 && eepromSize < 0x1_0000_0000
    ensures FindEntry(root, Ascii("FLASH   BIN"), 0) == 2 && FindEntry(root, Ascii("EEPROM  BIN"), 0) == 4
    ensures Le16At(root, 90) == 2 && Le32At(root, 92) == flashSize
    ensures Le16At(root, 154) == eepromCluster && Le32At(root, 156) == eepromSize
    ensures root[45] == NameChecksum(root[64..75]) && root[109] == NameChecksum(root[128..139])
  {
    hide FindEntry, Ascii, Directory, Le16At, Le32At, FileEntry, NameChecksum;
    DirectoryEntries(root, flashSize, eepromCluster, eepromSize);
    EntryReads(root, 2, "FLASH   BIN", 2, flashSize);
    EntryReads(root, 4, "EEPROM  BIN", eepromCluster, eepromSize);
    FirstLetters();
    assert root[64..75][0] == root[64];
    Found(root, Ascii("FLASH   BIN"), 0, 2);
    Found(root, Ascii("EEPROM  BIN"), 0, 4);
    FlashChecksum();
    EepromChecksum();
  }

  lemma {:induction false} ChecksumNext(name: seq<Octet>, k: nat, sum: nat, next: nat)
    requires k < |name| && NameChecksum(name[..k]) == sum && next == (sum / 2 + sum % 2 * 128 + name[k]) % 256
    ensures NameChecksum(name[..k + 1]) == next
  {
    assert name[..k + 1][..k] == name[..k];
  }

  lemma {:induction false} ChecksumNone(name: seq<Octet>)
    ensures NameChecksum(name[..0]) == 0
  {
  }

  lemma {:induction false} FlashLetters(name: seq<Octet>)
    requires name == Ascii("FLASH   BIN")
    ensures name == [70, 76, 65, 83, 72, 32, 32, 32, 66, 73, 78]
  {
  }

  lemma {:induction false} FlashChecksum()
    ensures NameChecksum(Ascii("FLASH   BIN")) == 0x26
  {
    hide NameChecksum, Ascii;
    var name := Ascii("FLASH   BIN");
    FlashLetters(name);
    ChecksumNone(name);
    ChecksumNext(name, 0, 0, 70);
    ChecksumNext(name, 1, 70, 111);
    ChecksumNext(name, 2, 111, 248);
    ChecksumNext(name, 3, 248, 207);
    ChecksumNext(name, 4, 207, 47);
    ChecksumNext(name, 5, 47, 183);
    ChecksumNext(name, 6, 183, 251);
    ChecksumNext(name, 7, 251, 29);
    ChecksumNext(name, 8, 29, 208);
    ChecksumNext(name, 9, 208, 177);
    ChecksumNext(name, 10, 177, 38);
    assert name[..11] == name;
  }

  lemma {:induction false} EepromLetters(name: seq<Octet>)
    requires name == Ascii("EEPROM  BIN")
    ensures name == [69, 69, 80, 82, 79, 77, 32, 32, 66, 73, 78]
  {
  }

  lemma {:induction false} EepromChecksum()
    ensures NameChecksum(Ascii("EEPROM  BIN")) == 0x14
  {
    hide NameChecksum, Ascii;
    var name := Ascii("EEPROM  BIN");
    EepromLetters(name);
    ChecksumNone(name);
    ChecksumNext(name, 0, 0, 69);
    ChecksumNext(name, 1, 69, 231);
    ChecksumNext(name, 2, 231, 67);
    ChecksumNext(name, 3, 67, 243);
    ChecksumNext(name, 4, 243, 72);
    ChecksumNext(name, 5, 72, 113);
    ChecksumNext(name, 6, 113, 216);
    ChecksumNext(name, 7, 216, 140);
    ChecksumNext(name, 8, 140, 136);
    ChecksumNext(name, 9, 136, 141);
    ChecksumNext(name, 10, 141, 20);
    assert name[..11] == name;
  }
}
