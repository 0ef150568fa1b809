/** The run-length subencodings of ZRLE (section 7.7.6 of RFC 6143), as the browser reads them. */
module Runs {
  import opened Bytes
  import opened Streams
  import opened Colours

  /**
    The length of a run, one more than the sum of bytes up to the first that is not 255, and the
    offset behind it. Behind the end of the data the sum is not a number and the loop that wants
    more pixels never ends.
   */
  function RunLength(data: seq<Byte>, o: nat): Option<(nat, nat)>
    decreases |data| - o
  {
    if o >= |data| then None
    else if data[o] == 255 then
      var (length, end) :- RunLength(data, o + 1);
      Some((length + 255, end))
    else Some((data[o] as nat + 1, o + 1))
  }

  lemma RunLengthPositive(data: seq<Byte>, o: nat)
    ensures RunLength(data, o).Some? ==> RunLength(data, o).value.0 > 0
    decreases |data| - o
  {
  }

  function Least(a: nat, b: nat): nat {
    if a <= b then a else b
  }

  function Times(colour: Bgr, n: nat): seq<Bgr> {
    seq(n, i => colour)
  }

  /** `length` pixels of one colour, cut at the number still wanted, and then the rest. */
  function PlainRuns(data: seq<Byte>, o: nat, wanted: nat): Option<(nat, seq<Bgr>)>
    decreases wanted
  {
    if wanted == 0 then Some((o, []))
    else
      var (length, next) :- RunLength(data, o + 3);
      RunLengthPositive(data, o + 3);
      var n := Least(length, wanted);
      var (end, px) :- PlainRuns(data, next, wanted - n);
      Some((end, Times(ColourAt(data, o), n) + px))
  }

  function PaletteEntry(data: seq<Byte>, palette: nat, size: nat, index: nat): Bgr {
    if index < size then ColourAt(data, palette + 3 * index) else BLACK
  }

  /** An index below 128 is one pixel, any other starts a run. */
  function PaletteRuns(data: seq<Byte>, palette: nat, size: nat, o: nat, wanted: nat): Option<(nat, seq<Bgr>)>
    decreases wanted
  {
    if wanted == 0 then Some((o, []))
    else if o >= |data| then None
    else if data[o] < 128 then
      var (end, px) :- PaletteRuns(data, palette, size, o + 1, wanted - 1);
      Some((end, [PaletteEntry(data, palette, size, data[o])] + px))
    else
      var (length, next) :- RunLength(data, o + 1);
      RunLengthPositive(data, o + 1);
      var n := Least(length, wanted);
      var (end, px) :- PaletteRuns(data, palette, size, next, wanted - n);
      Some((end, Times(PaletteEntry(data, palette, size, data[o] - 128), n) + px))
  }

  lemma {:induction false} PlainRunsSize(data: seq<Byte>, o: nat, wanted: nat)
    ensures PlainRuns(data, o, wanted).Some? ==> |PlainRuns(data, o, wanted).value.1| == wanted
    decreases wanted
  {
    if wanted > 0 && RunLength(data, o + 3).Some? {
      var (length, next) := RunLength(data, o + 3).value;
      RunLengthPositive(data, o + 3);
      PlainRunsSize(data, next, wanted - Least(length, wanted));
    }
  }

  lemma {:induction false} PaletteRunsSize(data: seq<Byte>, palette: nat, size: nat, o: nat, wanted: nat)
    ensures PaletteRuns(data, palette, size, o, wanted).Some? ==>
              |PaletteRuns(data, palette, size, o, wanted).value.1| == wanted
    decreases wanted
  {
    if wanted > 0 && o < |data| {
      if data[o] < 128 {
        PaletteRunsSize(data, palette, size, o + 1, wanted - 1);
      } else if RunLength(data, o + 1).Some? {
        var (length, next) := RunLength(data, o + 1).value;
        RunLengthPositive(data, o + 1);
        PaletteRunsSize(data, palette, size, next, wanted - Least(length, wanted));
      }
    }
  }

  /** A run as an encoder has it: a colour, `length` times. */
  datatype Run = Run(colour: Bgr, length: nat)

  predicate AllPositive(runs: seq<Run>) {
    forall i :: 0 <= i < |runs| ==> runs[i].length > 0
  }

  /** The run length minus one: as many bytes 255 as it holds, and the remainder. */
  function LengthWire(n: nat): seq<Byte> {
    if n >= 255 then [255] + LengthWire(n - 255) else [n]
  }

  function Expand(runs: seq<Run>): seq<Bgr> {
    if runs == [] then [] else Times(runs[0].colour, runs[0].length) + Expand(runs[1..])
  }

  function PlainWires(runs: seq<Run>): seq<seq<Byte>>
    requires AllPositive(runs)
  {
    seq(|runs|, i requires 0 <= i < |runs| => runs[i].colour.Wire() + LengthWire(runs[i].length - 1))
  }

  function PlainWire(runs: seq<Run>): seq<Byte>
    requires AllPositive(runs)
  {
    Concat(PlainWires(runs))
  }

  lemma {:induction false} LengthRead(n: nat, data: seq<Byte>, o: nat)
    requires Sits(data, o, LengthWire(n))
    ensures RunLength(data, o) == Some((n + 1, o + |LengthWire(n)|))
    decreases n
  {
    var wire := LengthWire(n);
    assert data[o] == wire[0];
    if n >= 255 {
      SitsSplit(data, o, [255], LengthWire(n - 255));
      LengthRead(n - 255, data, o + 1);
    }
  }

  lemma {:induction false} OnePlainRun(run: Run, data: seq<Byte>, o: nat, end: nat, px: seq<Bgr>)
    requires run.length > 0 && Sits(data, o, run.colour.Wire() + LengthWire(run.length - 1))
    requires PlainRuns(data, o + 3 + |LengthWire(run.length - 1)|, |px|) == Some((end, px))
    ensures var all := Times(run.colour, run.length) + px;
            PlainRuns(data, o, |all|) == Some((end, all))
  {
    SitsSplit(data, o, run.colour.Wire(), LengthWire(run.length - 1));
    ColourSits(run.colour, data, o);
    LengthRead(run.length - 1, data, o + 3);
  }

  /** Plain runs are read back as the pixels they stand for, all of them and no more, up to their last byte. */
  lemma {:induction false} PlainRoundTrip(runs: seq<Run>, data: seq<Byte>, o: nat)
    requires AllPositive(runs) && Sits(data, o, PlainWire(runs))
    ensures PlainRuns(data, o, |Expand(runs)|) == Some((o + |PlainWire(runs)|, Expand(runs)))
    decreases |runs|
  {
    if runs != [] {
      var wires, later := PlainWires(runs), runs[1..];
      assert wires[1..] == PlainWires(later);
      ConcatSits(data, o, wires);
      PlainRoundTrip(later, data, o + |wires[0]|);
      OnePlainRun(runs[0], data, o, o + |wires[0]| + |PlainWire(later)|, Expand(later));
    }
  }

  /** A run over a palette; a single pixel may be written without a length. */
  datatype IndexRun = Single(index: nat) | Repeated(index: nat, length: nat) {
    function Length(): nat { if Single? then 1 else length }

    predicate Fits(size: nat) { index < size <= 127 && Length() > 0 }

    function Wire(): seq<Byte>
      requires Fits(127)
    {
      match this
      case Single(index) => [index]
      case Repeated(index, length) => [index + 128] + LengthWire(length - 1)
    }
  }

  predicate AllFit(runs: seq<IndexRun>, size: nat) {
    size <= 127 && forall i :: 0 <= i < |runs| ==> runs[i].Fits(size)
  }

  function ExpandIndices(runs: seq<IndexRun>, palette: seq<Bgr>): seq<Bgr>
    requires AllFit(runs, |palette|)
  {
    if runs == [] then []
    else Times(palette[runs[0].index], runs[0].Length()) + ExpandIndices(runs[1..], palette)
  }

  function IndexWires(runs: seq<IndexRun>, size: nat): seq<seq<Byte>>
    requires AllFit(runs, size)
  {
    seq(|runs|, i requires 0 <= i < |runs| => runs[i].Wire())
  }

  function PaletteWire(runs: seq<IndexRun>, size: nat): seq<Byte>
    requires AllFit(runs, size)
  {
    Concat(IndexWires(runs, size))
  }

  lemma {:induction false} OneIndexRun(
    run: IndexRun, data: seq<Byte>, palette: nat, size: nat, o: nat, end: nat, px: seq<Bgr>)
    requires run.Fits(size) && Sits(data, o, run.Wire())
    requires PaletteRuns(data, palette, size, o + |run.Wire()|, |px|) == Some((end, px))
    ensures var all := Times(PaletteEntry(data, palette, size, run.index), run.Length()) + px;
            PaletteRuns(data, palette, size, o, |all|) == Some((end, all))
  {
    assert data[o] == run.Wire()[0];
    if run.Repeated? {
      SitsSplit(data, o, [run.index + 128], LengthWire(run.length - 1));
      LengthRead(run.length - 1, data, o + 1);
    } else {
      var colour := PaletteEntry(data, palette, size, run.index);
      assert Times(colour, 1) == [colour];
    }
  }

  lemma {:induction false} FirstIndexExpands(runs: seq<IndexRun>, palette: seq<Bgr>, data: seq<Byte>, at: nat)
    requires runs != [] && AllFit(runs, |palette|) && Sits(data, at, Wires(palette))
    ensures AllFit(runs[1..], |palette|)
    ensures ExpandIndices(runs, palette)
            == Times(PaletteEntry(data, at, |palette|, runs[0].index), runs[0].Length()) + ExpandIndices(runs[1..], palette)
  {
    WiresSit(palette, data, at, runs[0].index);
  }

  /** So are runs over a palette. */
  lemma {:induction false} PaletteRoundTrip(
    runs: seq<IndexRun>, palette: seq<Bgr>, data: seq<Byte>, at: nat, o: nat)
    requires AllFit(runs, |palette|) && Sits(data, at, Wires(palette)) && Sits(data, o, PaletteWire(runs, |palette|))
    ensures PaletteRuns(data, at, |palette|, o, |ExpandIndices(runs, palette)|)
            == Some((o + |PaletteWire(runs, |palette|)|, ExpandIndices(runs, palette)))
    decreases |runs|
  {
    if runs != [] {
      var wires, later := IndexWires(runs, |palette|), runs[1..];
      assert wires[1..] == IndexWires(later, |palette|);
      ConcatSits(data, o, wires);
      FirstIndexExpands(runs, palette, data, at);
      PaletteRoundTrip(later, palette, data, at, o + |wires[0]|);
      OneIndexRun(runs[0], data, at, |palette|, o, o + |wires[0]| + |PaletteWire(later, |palette|)|,
                  ExpandIndices(later, palette));
    }
  }
}
