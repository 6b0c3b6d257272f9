/** The FAT12 allocation table that the mass-storage boot loader serves, and how a host reads it. */
module FatTable {
  import opened Arithmetic
  import opened Flash

  const SECTOR := 512
  const END_OF_CHAIN := 0xFFF
  const MEDIA_ENTRY := 0xFF8

  /** The largest cluster whose entry the 8-bit table offset can reach. */
  const LAST_CLUSTER := 170

  // ---------------------------------------------------------------------------
  // Entries

  /** How a host reads entry i: twelve bits, two entries in three bytes. */
  function GetEntry(t: seq<Octet>, i: nat): (e: nat)
    requires |t| == SECTOR && i <= LAST_CLUSTER
    ensures e < 0x1000
  {
    var k := i + i / 2;
    var lo: nat, hi: nat := t[k], t[k + 1];
    if i % 2 == 1 then lo / 16 + hi * 16 else lo + hi % 16 * 256
  }

  /** What the loader writes for entry i. An even entry overwrites the nibble that begins the next one. */
  function PutEntry(t: seq<Octet>, i: nat, e: nat): (r: seq<Octet>)
    requires |t| == SECTOR && e < 0x1000
    ensures |r| == SECTOR
  {
    var k := (i + i / 2) % 256;
    if i % 2 == 1 then t[k := t[k] % 16 + e % 16 * 16][k + 1 := e / 16]
    else t[k := e % 256][k + 1 := e % 256 / 16 * 16 + e / 256]
  }

  lemma {:induction false} PutThenGet(t: seq<Octet>, i: nat, e: nat, j: nat)
    requires |t| == SECTOR && e < 0x1000 && i <= LAST_CLUSTER && j <= LAST_CLUSTER
    ensures GetEntry(PutEntry(t, i, e), j) ==
            if j == i then e
            else if j == i + 1 && i % 2 == 0 then GetEntry(t, j) / 16 * 16 + e % 256 / 16
            else GetEntry(t, j)
  {
    hide GetEntry, PutEntry;
    if i / 2 != j / 2 {
      PutElsewhere(t, i, e, j);
    } else if i % 2 == 1 {
      PutOdd(t, i, e, j);
    } else {
      PutEven(t, i, e, j);
    }
  }

  lemma {:induction false} PutElsewhere(t: seq<Octet>, i: nat, e: nat, j: nat)
    requires |t| == SECTOR && e < 0x1000 && i <= LAST_CLUSTER && j <= LAST_CLUSTER && i / 2 != j / 2
    ensures GetEntry(PutEntry(t, i, e), j) == GetEntry(t, j)
  {
    var q, r := j / 2, PutEntry(t, i, e);
    Offset(i);
    Offset(j);
    assert r[3 * q] == t[3 * q] && r[3 * q + 1] == t[3 * q + 1] && r[3 * q + 2] == t[3 * q + 2];
  }

  lemma {:induction false} PutOdd(t: seq<Octet>, i: nat, e: nat, j: nat)
    requires |t| == SECTOR && e < 0x1000 && i <= LAST_CLUSTER && j <= LAST_CLUSTER && i / 2 == j / 2 && i % 2 == 1
    ensures GetEntry(PutEntry(t, i, e), j) == if j == i then e else GetEntry(t, j)
  {
    var p, r := i / 2, PutEntry(t, i, e);
    Offset(i);
    Offset(j);
    OddNibbles(t[3 * p + 1], e);
    assert r[3 * p] == t[3 * p] && r[3 * p + 1] == t[3 * p + 1] % 16 + e % 16 * 16 && r[3 * p + 2] == e / 16;
  }

  lemma {:induction false} PutEven(t: seq<Octet>, i: nat, e: nat, j: nat)
    requires |t| == SECTOR && e < 0x1000 && i <= LAST_CLUSTER && j <= LAST_CLUSTER && i / 2 == j / 2 && i % 2 == 0
    ensures GetEntry(PutEntry(t, i, e), j) == if j == i then e else GetEntry(t, j) / 16 * 16 + e % 256 / 16
  {
    var p, r := i / 2, PutEntry(t, i, e);
    Offset(i);
    Offset(j);
    EvenNibbles(e);
    NextNibble(t[3 * p + 1], t[3 * p + 2]);
    assert r[3 * p] == e % 256 && r[3 * p + 1] == e % 256 / 16 * 16 + e / 256 && r[3 * p + 2] == t[3 * p + 2];
  }

  lemma {:induction false} OddNibbles(x: nat, e: nat)
    requires e < 0x1000
    ensures (x % 16 + e % 16 * 16) / 16 + e / 16 * 16 == e && (x % 16 + e % 16 * 16) % 16 == x % 16
  {
    DivModUnique(x % 16 + e % 16 * 16, 16, e % 16, x % 16);
  }

  lemma {:induction false} EvenNibbles(e: nat)
    requires e < 0x1000
    ensures var b := e % 256 / 16 * 16 + e / 256;
            b % 16 == e / 256 && b / 16 == e % 256 / 16 && e % 256 + b % 16 * 256 == e
  {
    DivModUnique(e % 256 / 16 * 16 + e / 256, 16, e % 256 / 16, e / 256);
  }

  lemma {:induction false} NextNibble(x: nat, y: nat)
    requires x < 256
    ensures (x / 16 + y * 16) / 16 * 16 == y * 16
  {
    DivModUnique(x / 16 + y * 16, 16, y, x / 16);
  }

  /** Two entries share three bytes. */
  lemma {:induction false} Offset(i: nat)
    requires i <= LAST_CLUSTER
    ensures i + i / 2 == 3 * (i / 2) + i % 2 && (i + i / 2) % 256 == i + i / 2
  {
  }

  // ---------------------------------------------------------------------------
  // Chains

  /** The link of cluster a + i in a chain of n clusters from a on. */
  function Link(a: nat, n: nat, i: nat): (e: nat)
    requires i < n && a + n <= LAST_CLUSTER + 1
    ensures e < 0x1000
  {
    if i == n - 1 then END_OF_CHAIN else a + i + 1
  }

  /** The table after the first m entries of a chain have been written. */
  function PutChain(t: seq<Octet>, a: nat, n: nat, m: nat): (r: seq<Octet>)
    requires |t| == SECTOR && m <= n && a + n <= LAST_CLUSTER + 1
    ensures |r| == SECTOR
  {
    if m == 0 then t else PutEntry(PutChain(t, a, n, m - 1), a + m - 1, Link(a, n, m - 1))
  }

  /** What writing a chain does to every entry: its own links, and the first nibble of the entry behind it. */
  lemma {:induction false} ChainEntries(t: seq<Octet>, a: nat, n: nat, m: nat, j: nat)
    requires |t| == SECTOR && m <= n && a + n <= LAST_CLUSTER + 1 && j <= LAST_CLUSTER
    ensures GetEntry(PutChain(t, a, n, m), j) ==
            if a <= j < a + m then Link(a, n, j - a)
            else if m > 0 && j == a + m && j % 2 == 1 then GetEntry(t, j) / 16 * 16 + Link(a, n, m - 1) % 256 / 16
            else GetEntry(t, j)
  {
    hide GetEntry, PutEntry;
    if m > 0 {
      ChainEntries(t, a, n, m - 1, j);
      PutThenGet(PutChain(t, a, n, m - 1), a + m - 1, Link(a, n, m - 1), j);
    }
  }

  /** The table that is served: the reserved entries, then the chain of each file. */
  function Table(flash: nat, flashLen: nat, eeprom: nat, eepromLen: nat): (r: seq<Octet>)
    requires flash + flashLen <= LAST_CLUSTER + 1 && eeprom + eepromLen <= LAST_CLUSTER + 1
    ensures |r| == SECTOR
  {
    var t := PutEntry(PutEntry(seq(SECTOR, _ => 0), 0, MEDIA_ENTRY), 1, END_OF_CHAIN);
    PutChain(PutChain(t, flash, flashLen, flashLen), eeprom, eepromLen, eepromLen)
  }

  // ---------------------------------------------------------------------------
  // What a host makes of the table

  /** The entries that end a chain. */
  predicate IsEnd(e: nat)
  {
    e >= 0xFF8
  }

  /** A host that starts at the first of these clusters visits all of them in turn, and stops at the last one. */
  ghost predicate Walks(t: seq<Octet>, path: seq<nat>)
    requires |t| == SECTOR
  {
    path != [] && forall i :: 0 <= i < |path| ==> Follows(t, path, i)
  }

  predicate Follows(t: seq<Octet>, path: seq<nat>, i: nat)
    requires |t| == SECTOR && i < |path|
  {
    && path[i] <= LAST_CLUSTER
    && if i == |path| - 1 then IsEnd(GetEntry(t, path[i])) else GetEntry(t, path[i]) == path[i + 1]
  }

  /** There is only one way to walk from a cluster. */
  lemma {:induction false} WalkUnique(t: seq<Octet>, p: seq<nat>, q: seq<nat>)
    requires |t| == SECTOR && Walks(t, p) && Walks(t, q) && p[0] == q[0]
    ensures p == q
  {
    hide GetEntry;
    var i := 0;
    while i < |p| - 1 && i < |q| - 1
      invariant 0 <= i < |p| && i < |q| && p[..i + 1] == q[..i + 1]
    {
      assert p[i] == p[..i + 1][i] == q[i];
      assert Follows(t, p, i) && Follows(t, q, i);
      i := i + 1;
    }
    assert p[i] == p[..i + 1][i] == q[i];
    assert i + 1 < |p| ==> Follows(t, p, i + 1);
    assert i + 1 < |q| ==> Follows(t, q, i + 1);
    assert Follows(t, p, i) && Follows(t, q, i);
  }

  /** The n clusters from a on. */
  function Clusters(a: nat, n: nat): (r: seq<nat>)
    ensures |r| == n
  {
    seq(n, i => a + i)
  }

  /** The walk from cluster a visits exactly the n clusters from a on, in order. */
  ghost predicate Serves(t: seq<Octet>, a: nat, n: nat)
    requires |t| == SECTOR
  {
    n > 0 ==> forall path: seq<nat> :: path != [] && path[0] == a ==> (Walks(t, path) <==> path == Clusters(a, n))
  }

  lemma {:induction false} ServesIsWalk(t: seq<Octet>, a: nat, n: nat)
    requires |t| == SECTOR && n > 0
    ensures Serves(t, a, n) <==> Walks(t, Clusters(a, n))
  {
    var c := Clusters(a, n);
    assert c[0] == a;
    if Walks(t, c) {
      forall path: seq<nat> | path != [] && path[0] == a && Walks(t, path) ensures path == c {
        WalkUnique(t, path, c);
      }
    }
  }

  /** It is enough that every cluster has its link. */
  lemma {:induction false} LinkedIsServed(t: seq<Octet>, a: nat, n: nat)
    requires |t| == SECTOR && a + n <= LAST_CLUSTER + 1
    requires forall i :: 0 <= i < n ==> GetEntry(t, a + i) == Link(a, n, i)
    ensures Serves(t, a, n)
  {
    hide GetEntry;
    if n > 0 {
      var c := Clusters(a, n);
      forall i | 0 <= i < n
        ensures Follows(t, c, i)
      {
        assert GetEntry(t, a + i) == Link(a, n, i);
      }
      ServesIsWalk(t, a, n);
    }
  }

  /** One cluster whose entry is not right spoils the walk. */
  lemma {:induction false} NotServed(t: seq<Octet>, a: nat, n: nat, i: nat)
    requires |t| == SECTOR && i < n && a + n <= LAST_CLUSTER + 1
    requires if i == n - 1 then !IsEnd(GetEntry(t, a + i)) else GetEntry(t, a + i) != a + i + 1
    ensures !Serves(t, a, n)
  {
    hide GetEntry;
    var c := Clusters(a, n);
    assert !Follows(t, c, i);
    ServesIsWalk(t, a, n);
  }

  /**
   The chains are disjoint and in order, or apart, or adjacent in reverse order where no nibble is lost, or end
   together.
   */
  predicate Compatible(flash: nat, flashLen: nat, eeprom: nat, eepromLen: nat)
  {
    || flash + flashLen <= eeprom
    || eeprom + eepromLen < flash
    || (eeprom + eepromLen == flash && (flash % 2 == 0 || flashLen == 1))
    || eeprom + eepromLen == flash + flashLen
  }

  /** The reserved entries are right whatever the layout. */
  lemma {:induction false} ReservedEntries(flash: nat, flashLen: nat, eeprom: nat, eepromLen: nat)
    requires 2 <= flash && flash + flashLen <= LAST_CLUSTER + 1 && 2 <= eeprom && eeprom + eepromLen <= LAST_CLUSTER + 1
    ensures var t := Table(flash, flashLen, eeprom, eepromLen);
            GetEntry(t, 0) == MEDIA_ENTRY && GetEntry(t, 1) == END_OF_CHAIN
  {
    hide GetEntry, PutEntry, PutChain;
    var z: seq<Octet> := seq(SECTOR, _ => 0);
    var t0 := PutEntry(z, 0, MEDIA_ENTRY);
    var t1 := PutEntry(t0, 1, END_OF_CHAIN);
    var t2 := PutChain(t1, flash, flashLen, flashLen);
    PutThenGet(z, 0, MEDIA_ENTRY, 0);
    PutThenGet(t0, 1, END_OF_CHAIN, 0);
    PutThenGet(t0, 1, END_OF_CHAIN, 1);
    ChainEntries(t1, flash, flashLen, flashLen, 0);
    ChainEntries(t1, flash, flashLen, flashLen, 1);
    ChainEntries(t2, eeprom, eepromLen, eepromLen, 0);
    ChainEntries(t2, eeprom, eepromLen, eepromLen, 1);
  }

  /** What the table says about a cluster of the FLASH file. */
  lemma {:induction false} FlashEntry(flash: nat, flashLen: nat, eeprom: nat, eepromLen: nat, j: nat)
    requires flash + flashLen <= LAST_CLUSTER + 1 && eeprom + eepromLen <= LAST_CLUSTER + 1 && eepromLen >= 1
    requires flash <= j < flash + flashLen
    ensures GetEntry(Table(flash, flashLen, eeprom, eepromLen), j) ==
            if eeprom <= j < eeprom + eepromLen then Link(eeprom, eepromLen, j - eeprom)
            else if j == eeprom + eepromLen && j % 2 == 1 then Link(flash, flashLen, j - flash) / 16 * 16 + 15
            else Link(flash, flashLen, j - flash)
  {
    hide GetEntry, PutEntry, PutChain;
    var t1 := PutEntry(PutEntry(seq(SECTOR, _ => 0), 0, MEDIA_ENTRY), 1, END_OF_CHAIN);
    ChainEntries(t1, flash, flashLen, flashLen, j);
    ChainEntries(PutChain(t1, flash, flashLen, flashLen), eeprom, eepromLen, eepromLen, j);
  }

  /** The EEPROM file's chain is written last, and is always right. */
  lemma {:induction false} ServesEeprom(flash: nat, flashLen: nat, eeprom: nat, eepromLen: nat)
    requires flash + flashLen <= LAST_CLUSTER + 1 && eeprom + eepromLen <= LAST_CLUSTER + 1
    ensures Serves(Table(flash, flashLen, eeprom, eepromLen), eeprom, eepromLen)
  {
    hide GetEntry, PutEntry, PutChain;
    var t1 := PutEntry(PutEntry(seq(SECTOR, _ => 0), 0, MEDIA_ENTRY), 1, END_OF_CHAIN);
    var t2 := PutChain(t1, flash, flashLen, flashLen);
    var t := PutChain(t2, eeprom, eepromLen, eepromLen);
    forall i | 0 <= i < eepromLen ensures GetEntry(t, eeprom + i) == Link(eeprom, eepromLen, i) {
      ChainEntries(t2, eeprom, eepromLen, eepromLen, eeprom + i);
    }
    LinkedIsServed(t, eeprom, eepromLen);
  }

  /** The FLASH file's chain can be followed exactly for compatible layouts. */
  lemma {:induction false} ServesFlashIff(flash: nat, flashLen: nat, eeprom: nat, eepromLen: nat)
    requires 2 <= flash && 1 <= flashLen && flash + flashLen <= LAST_CLUSTER + 1
    requires 2 <= eeprom && 1 <= eepromLen && eeprom + eepromLen <= LAST_CLUSTER + 1
    ensures Serves(Table(flash, flashLen, eeprom, eepromLen), flash, flashLen) <==>
            Compatible(flash, flashLen, eeprom, eepromLen)
  {
    hide GetEntry, Table, Serves;
    var t := Table(flash, flashLen, eeprom, eepromLen);
    var last, lastE := flash + flashLen - 1, eeprom + eepromLen - 1;
    if Compatible(flash, flashLen, eeprom, eepromLen) {
      forall i | 0 <= i < flashLen ensures GetEntry(t, flash + i) == Link(flash, flashLen, i) {
        FlashEntry(flash, flashLen, eeprom, eepromLen, flash + i);
      }
      LinkedIsServed(t, flash, flashLen);
    } else if eeprom + eepromLen == flash {
      FlashEntry(flash, flashLen, eeprom, eepromLen, flash);
      NotServed(t, flash, flashLen, 0);
    } else if last < lastE {
      FlashEntry(flash, flashLen, eeprom, eepromLen, last);
      NotServed(t, flash, flashLen, flashLen - 1);
    } else {
      FlashEntry(flash, flashLen, eeprom, eepromLen, lastE);
      NotServed(t, flash, flashLen, lastE - flash);
    }
  }

  // ---------------------------------------------------------------------------
  // The table in its buffer

  method UpdateClusterEntry(table: array<Octet>, index: nat, entry: nat)
    requires table.Length == SECTOR && entry < 0x1000
    modifies table
    ensures table[..] == PutEntry(old(table[..]), index, entry)
    // What a host reads then: the entry, and, after an even one, a changed nibble in the next.
    ensures index <= LAST_CLUSTER ==> forall j :: 0 <= j <= LAST_CLUSTER ==>
      GetEntry(table[..], j) ==
      if j == index then entry
      else if j == index + 1 && index % 2 == 0 then GetEntry(old(table[..]), j) / 16 * 16 + entry % 256 / 16
      else GetEntry(old(table[..]), j)
  {
    var offset := (index + index / 2) % 256;
    if index % 2 != 0 {
      table[offset] := table[offset] % 16 + entry % 16 * 16;
      table[offset + 1] := entry / 16;
    } else {
      table[offset] := entry % 256;
      table[offset + 1] := table[offset] / 16 * 16 + entry / 256;
    }
    assert table[..] == PutEntry(old(table[..]), index, entry);
    hide PutEntry, GetEntry;
    if index <= LAST_CLUSTER {
      forall j | 0 <= j <= LAST_CLUSTER
        ensures GetEntry(table[..], j) ==
                if j == index then entry
                else if j == index + 1 && index % 2 == 0 then GetEntry(old(table[..]), j) / 16 * 16 + entry % 256 / 16
                else GetEntry(old(table[..]), j)
      {
        PutThenGet(old(table[..]), index, entry, j);
      }
    }
  }

  method UpdateClusterChain(table: array<Octet>, index: nat, length: nat)
    requires table.Length == SECTOR && index + length <= LAST_CLUSTER + 1
    modifies table
    ensures table[..] == PutChain(old(table[..]), index, length, length)
  {
    hide PutEntry;
    for i := 0 to length
      invariant table[..] == PutChain(old(table[..]), index, length, i)
    {
      var next := index + i + 1;
      if i == length - 1 {
        next := END_OF_CHAIN;
      }
      UpdateClusterEntry(table, index + i, next);
    }
  }

  method ServeTable(buffer: array<Octet>, flash: nat, flashLen: nat, eeprom: nat, eepromLen: nat)
    requires buffer.Length == SECTOR && forall i :: 0 <= i < SECTOR ==> buffer[i] == 0
    requires flash + flashLen <= LAST_CLUSTER + 1 && eeprom + eepromLen <= LAST_CLUSTER + 1
    modifies buffer
    ensures buffer[..] == Table(flash, flashLen, eeprom, eepromLen)
  {
    hide PutEntry, PutChain;
    assert buffer[..] == seq(SECTOR, _ => 0);
    UpdateClusterEntry(buffer, 0, MEDIA_ENTRY);
    UpdateClusterEntry(buffer, 1, END_OF_CHAIN);
    UpdateClusterChain(buffer, flash, flashLen);
    UpdateClusterChain(buffer, eeprom, eepromLen);
  }
}
