/** What the printer-class loader does to the flash, operation by operation. */
module HexTrace {
  import opened Flash
  import opened HexParser

  function Apply(f: Flash, op: FlashOp): (r: Flash)
    requires ValidFlash(f)
    ensures ValidFlash(r) && PageSize(r) == PageSize(f) && |r.mem| == |f.mem|
  {
    match op
    case EraseOp(page) => Erase(f, page)
    case FillOp(address, lo, hi) => Fill(f, address, lo, hi)
    case WriteOp(page) => Write(f, page)
  }

  /** The flash after a sequence of operations. */
  function Replay(f: Flash, ops: seq<FlashOp>): (r: Flash)
    requires ValidFlash(f)
    ensures ValidFlash(r) && PageSize(r) == PageSize(f) && |r.mem| == |f.mem|
  {
    if ops == [] then f else Apply(Replay(f, ops[..|ops| - 1]), ops[|ops| - 1])
  }

  lemma {:induction false} ReplayNext(f: Flash, ops: seq<FlashOp>, op: FlashOp)
    requires ValidFlash(f)
    ensures Replay(f, ops + [op]) == Apply(Replay(f, ops), op)
  {
    assert (ops + [op])[..|ops|] == ops;
  }

  /** The flash is what the trace made of f. */
  ghost predicate Explained(s: State, f: Flash)
  {
    ValidFlash(f) && s.flash == Replay(f, s.trace)
  }

  lemma {:induction false} WordExplained(s: State, f: Flash)
    requires Valid(s) && Explained(s, f)
    ensures Explained(TakeWord(s), f)
  {
    hide Replay, Erase, Fill, Write, PageOf;
    var s1 := if s.dirty then s else ErasePage(s);
    ReplayNext(f, s.trace, EraseOp(s.pageStart));
    ReplayNext(f, s1.trace, FillOp(s.addr, s.prevData, s.data));
    FlushExplained(FillWord(s1), f);
  }

  lemma {:induction false} FlushExplained(s: State, f: Flash)
    requires Valid(s) && Explained(s, f)
    ensures Explained(FlushIfRequired(s), f)
  {
    hide Replay, Write, PageOf;
    ReplayNext(f, s.trace, WriteOp(s.pageStart));
  }

  lemma {:induction false} StepExplained(s: State, c: char, f: Flash)
    requires Valid(s) && Explained(s, f)
    ensures Explained(Step(s, c), f)
  {
    hide TakeByte, Replay;
    var v := HexToDecimal(c);
    if v >= 0 {
      var t := s.(data := (s.data * 16 + v) % 256, readMsb := !s.readMsb);
      ByteExplained(t, f);
    }
  }

  lemma {:induction false} ByteExplained(s: State, f: Flash)
    requires Valid(s) && Explained(s, f)
    ensures Explained(TakeByte(s), f)
  {
    hide TakeWord, FlushIfRequired, Replay;
    FlushExplained(s, f);
    WordExplained(s.(checksum := (s.checksum + s.data) % 256, dataRem := (s.dataRem + 255) % 256), f);
  }

  /** Over any stream, the trace tells what became of the flash. */
  lemma {:induction false} RunExplained(s: State, text: string, f: Flash)
    requires Valid(s) && Explained(s, f)
    ensures Explained(Run(s, text), f)
    decreases |text|
  {
    hide Step, Explained;
    if text != [] {
      StepExplained(s, text[0], f);
      RunExplained(Step(s, text[0]), text[1..], f);
    }
  }

  lemma {:induction false} WordGrows(s: State)
    requires Valid(s)
    ensures s.trace <= TakeWord(s).trace
  {
    hide Erase, Fill, Write, PageOf;
  }

  lemma {:induction false} FlushGrows(s: State)
    requires Valid(s)
    ensures s.trace <= FlushIfRequired(s).trace
  {
    hide Write, PageOf;
  }

  lemma {:induction false} ByteGrows(s: State)
    requires Valid(s)
    ensures s.trace <= TakeByte(s).trace
  {
    hide TakeWord, FlushIfRequired;
    FlushGrows(s);
    WordGrows(s.(checksum := (s.checksum + s.data) % 256, dataRem := (s.dataRem + 255) % 256));
  }

  lemma {:induction false} StepGrows(s: State, c: char)
    requires Valid(s)
    ensures s.trace <= Step(s, c).trace
  {
    hide TakeByte;
    var v := HexToDecimal(c);
    if v >= 0 {
      ByteGrows(s.(data := (s.data * 16 + v) % 256, readMsb := !s.readMsb));
    }
  }

  /** The trace only grows. */
  lemma {:induction false} TraceGrows(s: State, text: string)
    requires Valid(s)
    ensures s.trace <= Run(s, text).trace
    decreases |text|
  {
    hide Step;
    if text != [] {
      StepGrows(s, text[0]);
      TraceGrows(Step(s, text[0]), text[1..]);
    }
  }

  /** Dropping insignificant characters changes no operation on the flash, nor whether the loader goes on. */
  lemma {:induction false} StripKeepsTrace(s: State, text: string)
    requires Valid(s)
    ensures var t, u := Run(s, text), Run(s, Strip(text));
            t.trace == u.trace && t.flash == u.flash && t.run == u.run
  {
    hide Run, Strip;
    StripChangesNothing(s, s, text);
  }
}
