/**
 AVR self-programming as the boot loaders see it: flash is erased a page at a time, words are loaded
 into a temporary page buffer, and a page write programs the buffer into a page. Programming can only
 clear bits, so a page that was not erased first keeps its old zeros. The page write leaves the buffer
 blank.
 */
module Flash {
  import opened Arithmetic

  type Octet = b: int | 0 <= b < 256

  const BLANK: Octet := 255

  datatype Flash = Flash(mem: seq<Octet>, temp: seq<Octet>)

  /** The page size: the size of the temporary buffer. */
  function PageSize(f: Flash): nat
  {
    |f.temp|
  }

  /** A page holds whole words, and the memory whole pages. */
  ghost predicate ValidFlash(f: Flash)
  {
    PageSize(f) >= 2 && PageSize(f) % 2 == 0 && |f.mem| % PageSize(f) == 0
  }

  /** A word from its two bytes. */
  function Word(hi: Octet, lo: Octet): (w: nat)
    ensures w < 0x1_0000
  {
    hi as int * 256 + lo
  }

  function Sum(bytes: seq<Octet>): nat
  {
    if bytes == [] then 0 else bytes[0] + Sum(bytes[1..])
  }

  /** Bitwise and. */
  function And(a: nat, b: nat): (r: nat)
    ensures r <= a
  {
    if a == 0 || b == 0 then 0 else 2 * And(a / 2, b / 2) + if a % 2 == 1 && b % 2 == 1 then 1 else 0
  }

  function Blank(n: nat): (s: seq<Octet>)
    ensures |s| == n && forall i :: 0 <= i < n ==> s[i] == BLANK
  {
    seq(n, _ => BLANK)
  }

  function PageOf(a: nat, size: nat): nat
    requires size > 0
  {
    a - a % size
  }

  /** Replaces the page at pg by these bytes. */
  function SetPage(mem: seq<Octet>, pg: nat, bytes: seq<Octet>): (r: seq<Octet>)
    requires pg + |bytes| <= |mem|
    ensures |r| == |mem|
    ensures forall i :: 0 <= i < |mem| ==> r[i] == if pg <= i < pg + |bytes| then bytes[i - pg] else mem[i]
  {
    mem[..pg] + bytes + mem[pg + |bytes|..]
  }

  /** The two memories agree from address a on. */
  ghost predicate SameFrom(f: Flash, g: Flash, a: nat)
  {
    |f.mem| == |g.mem| && forall i :: a <= i < |f.mem| ==> f.mem[i] == g.mem[i]
  }

  lemma {:induction false} SetNothing(mem: seq<Octet>, a: nat)
    requires a <= |mem|
    ensures SetPage(mem, a, []) == mem
  {
  }

  /** Erases the page that holds address a; an address outside the memory changes nothing. */
  function Erase(f: Flash, a: nat): (r: Flash)
    requires ValidFlash(f)
    ensures ValidFlash(r) && PageSize(r) == PageSize(f) && |r.mem| == |f.mem|
  {
    var pg := PageOf(a, PageSize(f));
    if pg + PageSize(f) <= |f.mem| then f.(mem := SetPage(f.mem, pg, Blank(PageSize(f)))) else f
  }

  /** Loads a word into the buffer, at the place of address a in its page. */
  function Fill(f: Flash, a: nat, lo: Octet, hi: Octet): (r: Flash)
    requires ValidFlash(f)
    ensures ValidFlash(r) && PageSize(r) == PageSize(f) && |r.mem| == |f.mem|
  {
    var k := PageOf(a % PageSize(f), 2);
    PageRoom(a, PageSize(f));
    f.(temp := f.temp[k := lo][k + 1 := hi])
  }

  /** Programs the buffer into the page that holds address a. */
  function Write(f: Flash, a: nat): (r: Flash)
    requires ValidFlash(f)
    ensures ValidFlash(r) && PageSize(r) == PageSize(f) && |r.mem| == |f.mem|
  {
    var pg := PageOf(a, PageSize(f));
    var mem := if pg + PageSize(f) <= |f.mem| then SetPage(f.mem, pg, Programmed(f.mem[pg..pg + PageSize(f)], f.temp))
      else f.mem;
    Flash(mem, Blank(PageSize(f)))
  }

  function Programmed(page: seq<Octet>, temp: seq<Octet>): (r: seq<Octet>)
    requires |page| == |temp|
    ensures |r| == |page|
  {
    seq(|page|, i requires 0 <= i < |page| => And(page[i], temp[i]))
  }

  lemma {:induction false} PageRoom(a: nat, size: nat)
    requires size >= 2 && size % 2 == 0
    ensures PageOf(a % size, 2) + 2 <= size
  {
  }

  lemma {:induction false} AndOnes(n: nat, b: nat)
    requires b <= n && exists k: nat :: n + 1 == Pow2(k)
    ensures And(n, b) == b
  {
    if b > 0 {
      var k: nat :| n + 1 == Pow2(k);
      assert n / 2 + 1 == Pow2(k - 1);
      AndOnes(n / 2, b / 2);
    }
  }

  /** Programming an erased page stores the buffer. */
  lemma {:induction false} ProgramBlank(temp: seq<Octet>)
    ensures Programmed(Blank(|temp|), temp) == temp
  {
    forall i | 0 <= i < |temp| ensures And(BLANK, temp[i]) == temp[i] {
      assert Pow2(8) == 256 by {
        assert Pow2(4) == 16;
        assert Pow2(5) == 32 && Pow2(6) == 64 && Pow2(7) == 128;
      }
      AndOnes(BLANK, temp[i]);
    }
  }

  // ---------------------------------------------------------------------------
  // Storing a stream of bytes, page after page

  function Padded(bytes: seq<Octet>, size: nat): (r: seq<Octet>)
    requires |bytes| <= size
    ensures |r| == size
  {
    bytes + Blank(size - |bytes|)
  }

  /** A flash whose buffer is blank. */
  function Idle(mem: seq<Octet>, size: nat): Flash
  {
    Flash(mem, Blank(size))
  }

  /** A flash in the middle of a page: the page is erased, and the buffer holds its first bytes. */
  function InPage(mem: seq<Octet>, size: nat, pg: nat, bytes: seq<Octet>): Flash
    requires pg + size <= |mem| && |bytes| <= size
  {
    Flash(SetPage(mem, pg, Blank(size)), Padded(bytes, size))
  }

  ghost predicate IsPage(mem: seq<Octet>, size: nat, pg: nat)
  {
    size >= 2 && size % 2 == 0 && |mem| % size == 0 && pg % size == 0 && pg + size <= |mem|
  }

  lemma {:induction false} EraseStarts(mem: seq<Octet>, size: nat, pg: nat, k: nat)
    requires IsPage(mem, size, pg) && k < size
    ensures ValidFlash(Idle(mem, size)) && Erase(Idle(mem, size), pg + k) == InPage(mem, size, pg, [])
  {
    PageOfOffset(pg, k, size);
  }

  lemma {:induction false} FillAdds(mem: seq<Octet>, size: nat, pg: nat, bytes: seq<Octet>, lo: Octet, hi: Octet)
    requires IsPage(mem, size, pg) && |bytes| + 2 <= size && |bytes| % 2 == 0
    ensures ValidFlash(InPage(mem, size, pg, bytes))
    ensures Fill(InPage(mem, size, pg, bytes), pg + |bytes|, lo, hi) == InPage(mem, size, pg, bytes + [lo, hi])
  {
    PageOfOffset(pg, |bytes|, size);
  }

  lemma {:induction false} WriteStores(mem: seq<Octet>, size: nat, pg: nat, bytes: seq<Octet>, k: nat)
    requires IsPage(mem, size, pg) && |bytes| <= size && k < size
    ensures ValidFlash(InPage(mem, size, pg, bytes))
    ensures Write(InPage(mem, size, pg, bytes), pg + k) == Idle(SetPage(mem, pg, Padded(bytes, size)), size)
  {
    PageOfOffset(pg, k, size);
    ProgramBlank(Padded(bytes, size));
    var f := InPage(mem, size, pg, bytes);
    assert f.mem[pg..pg + size] == Blank(size);
  }

  lemma {:induction false} PageOfOffset(pg: nat, k: nat, size: nat)
    requires size > 0 && pg % size == 0 && k < size
    ensures (pg + k) % size == k && PageOf(pg + k, size) == pg
  {
    DivModUnique(pg + k, size, pg / size, k);
  }

  /**
   Bytes streamed in from base on, the start of a page: some whole pages of them, and the beginning of
   the next page.
   */
  ghost predicate Streaming(mem: seq<Octet>, size: nat, base: nat, full: seq<Octet>, rest: seq<Octet>)
  {
    && size >= 2 && size % 2 == 0 && |mem| % size == 0
    && |full| % size == 0 && (base + |full|) % size == 0
    && |rest| < size && |rest| % 2 == 0
    && base + |full| <= |mem| && (rest != [] ==> base + |full| + size <= |mem|)
  }

  lemma {:induction false} StreamingFacts(mem: seq<Octet>, size: nat, base: nat, full: seq<Octet>, rest: seq<Octet>)
    requires Streaming(mem, size, base, full, rest)
    ensures size >= 2 && size % 2 == 0 && |full| % size == 0 && (base + |full|) % size == 0 && |rest| < size
    ensures |rest| % 2 == 0
    ensures ValidFlash(Streamed(mem, size, base, full, rest)) && PageSize(Streamed(mem, size, base, full, rest)) == size
  {
  }

  /** The flash then: the whole pages are stored, the next page is erased and loaded. */
  function Streamed(mem: seq<Octet>, size: nat, base: nat, full: seq<Octet>, rest: seq<Octet>): (f: Flash)
    requires Streaming(mem, size, base, full, rest)
    ensures ValidFlash(f) && PageSize(f) == size && |f.mem| == |mem|
  {
    var done := SetPage(mem, base, full);
    if rest == [] then Idle(done, size) else InPage(done, size, base + |full|, rest)
  }

  /** One more word: erase if it starts a page, load it, and write the page if it completes one. */
  lemma {:induction false} StreamWord(mem: seq<Octet>, size: nat, base: nat, full: seq<Octet>, rest: seq<Octet>,
                                      lo: Octet, hi: Octet)
    requires Streaming(mem, size, base, full, rest) && base + |full| + size <= |mem|
    ensures |rest| + 2 <= size
    ensures var pg := base + |full|;
            var f := Streamed(mem, size, base, full, rest);
            var erased := if rest == [] then Erase(f, pg) else f;
            && ValidFlash(erased)
            && var filled := Fill(erased, pg + |rest|, lo, hi);
               var rest' := rest + [lo, hi];
               && ValidFlash(filled)
               && if |rest'| < size
                  then Streaming(mem, size, base, full, rest') && filled == Streamed(mem, size, base, full, rest')
                  else && Streaming(mem, size, base, full + rest', [])
                       && Write(filled, pg) == Streamed(mem, size, base, full + rest', [])
  {
    hide Erase, Fill, Write, SetPage, InPage, Idle;
    var pg, done := base + |full|, SetPage(mem, base, full);
    EvenRoom(|rest|, size);
    if rest == [] {
      EraseStarts(done, size, pg, 0);
    }
    FillAdds(done, size, pg, rest, lo, hi);
    if |rest| + 2 == size {
      PageCompletes(mem, size, base, full, rest + [lo, hi]);
    }
  }

  lemma {:induction false} EvenRoom(n: nat, size: nat)
    requires n % 2 == 0 && size % 2 == 0 && n < size
    ensures n + 2 <= size && (n + 2) % 2 == 0
  {
  }

  lemma {:induction false} PageCompletes(mem: seq<Octet>, size: nat, base: nat, full: seq<Octet>, page: seq<Octet>)
    requires Streaming(mem, size, base, full, []) && base + |full| + size <= |mem| && |page| == size
    ensures var pg := base + |full|;
            var f := InPage(SetPage(mem, base, full), size, pg, page);
            && ValidFlash(f) && Streaming(mem, size, base, full + page, [])
            && Write(f, pg) == Streamed(mem, size, base, full + page, [])
  {
    hide Write;
    var pg, done := base + |full|, SetPage(mem, base, full);
    WriteStores(done, size, pg, page, 0);
    NextPage(|full|, size);
    NextPage(pg, size);
    assert SetPage(done, pg, Padded(page, size)) == SetPage(mem, base, full + page);
  }

  lemma {:induction false} PageBelow(pg: nat, limit: nat, size: nat)
    requires size > 0 && pg % size == 0 && limit % size == 0 && pg < limit
    ensures pg + size <= limit
  {
    var d := limit / size - pg / size;
    assert size * d == limit - pg;
    MulAtLeast(size, d);
  }

  lemma {:induction false} NextPage(pg: nat, size: nat)
    requires size > 0 && pg % size == 0
    ensures (pg + size) % size == 0
  {
    DivModUnique(pg + size, size, pg / size + 1, 0);
  }

  // ---------------------------------------------------------------------------
  // The finished store

  function RoundUp(n: nat, size: nat): (r: nat)
    requires size > 0
    ensures n <= r < n + size
  {
    if n % size == 0 then n else n - n % size + size
  }

  /** The memory with these bytes at base; the rest of their last page is blank. */
  function Stored(mem: seq<Octet>, size: nat, base: nat, data: seq<Octet>): (r: seq<Octet>)
    requires size > 0 && base + RoundUp(|data|, size) <= |mem|
    ensures |r| == |mem|
    ensures forall i :: 0 <= i < |mem| ==>
      r[i] == (if base <= i < base + |data| then data[i - base]
               else if base <= i < base + RoundUp(|data|, size) then BLANK
               else mem[i])
  {
    SetPage(mem, base, Padded(data, RoundUp(|data|, size)))
  }

  lemma {:induction false} StreamedIsStored(mem: seq<Octet>, size: nat, base: nat, full: seq<Octet>)
    requires Streaming(mem, size, base, full, [])
    ensures RoundUp(|full|, size) == |full|
    ensures Streamed(mem, size, base, full, []) == Idle(Stored(mem, size, base, full), size)
  {
    assert Padded(full, |full|) == full;
  }

  /** Writing the page in progress completes the store. */
  lemma {:induction false} FlushStores(mem: seq<Octet>, size: nat, base: nat, full: seq<Octet>, rest: seq<Octet>,
                                       k: nat)
    requires Streaming(mem, size, base, full, rest) && rest != [] && k < size
    ensures base + RoundUp(|full + rest|, size) <= |mem|
    ensures Write(Streamed(mem, size, base, full, rest), base + |full| + k) ==
            Idle(Stored(mem, size, base, full + rest), size)
  {
    hide Write;
    var done := SetPage(mem, base, full);
    WriteStores(done, size, base + |full|, rest, k);
    DivModUnique(|full + rest|, size, |full| / size, |rest|);
    assert SetPage(done, base + |full|, Padded(rest, size)) == Stored(mem, size, base, full + rest);
  }
}
