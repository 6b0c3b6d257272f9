/** The daemon and the extractor utility, side by side on the same characters. */
module Agreement {
  import opened AmlsArray
  import opened Extractor
  import opened Packing
  import opened Stream
  import opened Utilities
  import D = Daemon

  /** The characters that the devices deliver, up to the poll that ends the daemon. */
  function Characters(polls: seq<D.Poll>): (text: seq<Char8>)
    ensures forall i :: 0 <= i < |text| ==> text[i] == ASCII_ZERO || text[i] == ASCII_ONE
  {
    if polls == [] then []
    else match polls[0]
      case NotReady => Characters(polls[1..])
      case ReadError => []
      case Chunk(data) => if D.AllAscii(data) then Plain(data) + Characters(polls[1..]) else []
  }

  function Plain(data: seq<Cell>): (text: seq<Char8>)
    requires D.AllAscii(data)
    ensures |text| == |data| && forall i :: 0 <= i < |text| ==> text[i] == data[i]
    ensures forall i :: 0 <= i < |text| ==> text[i] == ASCII_ZERO || text[i] == ASCII_ONE
  {
    assert forall i :: 0 <= i < |data| ==> data[i] in data;
    seq(|data|, i requires 0 <= i < |data| => data[i])
  }

  /** What the daemon collects is what the characters spell to the utilities. */
  lemma {:induction false} TakenIsText(polls: seq<D.Poll>)
    ensures D.Taken(polls) == TextBits(Characters(polls))
  {
    hide TextBits, D.FromAscii, D.AllAscii;
    if polls == [] {
      assert TextBits([]) == [];
    } else {
      TakenIsText(polls[1..]);
      var first := polls[0];
      if first.ReadError? || (first.Chunk? && !D.AllAscii(first.data)) {
        assert TextBits([]) == [];
      } else if first.Chunk? {
        ChunkIsText(first.data);
        TextBitsAppend(Plain(first.data), Characters(polls[1..]));
      }
    }
  }

  lemma {:induction false} ChunkIsText(data: seq<Cell>)
    requires D.AllAscii(data)
    ensures D.FromAscii(data) == TextBits(Plain(data))
  {
    D.Spells(data);
  }

  lemma {:induction false} TextBitsAppend(a: seq<Char8>, b: seq<Char8>)
    ensures TextBits(a + b) == TextBits(a) + TextBits(b)
  {
  }

  /** The bits that the daemon packs are, bit by bit, what the utility prints for the same characters. */
  lemma {:induction false} DaemonAgrees(passes: seq<D.Pass>)
    ensures ToText(Debias(D.Taken(D.AllPolls(passes)))) == Extracted(Characters(D.AllPolls(passes)))
  {
    hide Debias, Extracted, TextBits, Characters, ToText;
    TakenIsText(D.AllPolls(passes));
    ToolAgrees(Characters(D.AllPolls(passes)));
  }

  /** Runs both. */
  method WhitenBoth(devices: nat, passes: seq<D.Pass>) returns (d: D.Daemon, printed: seq<Char8>)
    requires D.AllWellFormed(passes, devices)
    ensures var w := TextBits(printed); printed == ToText(w) && d.out == Emitted(w)
    ensures d.status.Running? <==> D.Survives(D.AllPolls(passes))
  {
    hide Debias, Emitted, Extracted, TextBits, Characters, ToText, D.AllPolls, D.Taken, D.Survives, D.Daemon.Valid;
    d := D.Gather(devices, passes);
    printed := AmlsTool(Characters(D.AllPolls(passes)));
    DaemonAgrees(passes);
    PrintedBits(Debias(D.Taken(D.AllPolls(passes))));
  }

  /** A printed bit reads back as itself. */
  lemma {:induction false} PrintedBits(w: seq<Bit>)
    ensures TextBits(ToText(w)) == w
  {
  }
}
