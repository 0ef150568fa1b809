/** Tiles of the Tight encoder (rfb/encodings/tight.go) and the order in which its goroutines encode them. */
module TightTiles {
  import opened Bytes
  import opened Streams
  import opened Grid
  import opened Colours
  import opened Protocol
  import CompactLength
  import Zlib

  datatype Kind = SolidKind(colour: Bgr) | JpegKind | BasicKind(stream: nat)

  datatype TileInfo = TileInfo(area: Rect, px: seq<Bgr>, kind: Kind) {
    predicate IsBasic(s: nat) { kind == BasicKind(s) }
  }

  /** Red, green, blue of each pixel. */
  function RgbWire(px: seq<Bgr>): (w: seq<Byte>)
    ensures |w| == 3 * |px|
  {
    if px == [] then [] else RgbWire(px[..|px| - 1]) + [px[|px| - 1].r, px[|px| - 1].g, px[|px| - 1].b]
  }

  lemma {:induction false} RgbWireAt(px: seq<Bgr>, k: nat)
    requires k < |px|
    ensures RgbWire(px)[3 * k..3 * k + 3] == [px[k].r, px[k].g, px[k].b]
    decreases |px|
  {
    var n := |px| - 1;
    var before := RgbWire(px[..n]);
    if k < n {
      RgbWireAt(px[..n], k);
      assert RgbWire(px)[3 * k..3 * k + 3] == before[3 * k..3 * k + 3];
      assert px[..n][k] == px[k];
    }
  }

  /** The RGB data of the Basic tiles of stream `s`, in order. */
  function Plains(tiles: seq<TileInfo>, s: nat): seq<seq<Byte>> {
    if tiles == [] then []
    else
      var last := tiles[|tiles| - 1];
      Plains(tiles[..|tiles| - 1], s) + (if last.IsBasic(s) then [RgbWire(last.px)] else [])
  }

  /** The indices of those tiles: the work of one goroutine. */
  function Work(tiles: seq<TileInfo>, s: nat): seq<nat> {
    if tiles == [] then []
    else
      var n := |tiles| - 1;
      Work(tiles[..n], s) + (if tiles[n].IsBasic(s) then [n] else [])
  }

  /** What a stream has compressed when it comes to tile `i`, if all its tiles go in order. */
  function HistoryAt(start: seq<seq<seq<Byte>>>, tiles: seq<TileInfo>, i: nat): seq<seq<Byte>>
    requires |start| == 4 && i < |tiles| && tiles[i].kind.BasicKind? && tiles[i].kind.stream < 4
  {
    start[tiles[i].kind.stream] + Plains(tiles[..i], tiles[i].kind.stream)
  }

  function BasicWire(codec: Zlib.Codec, history: seq<seq<Byte>>, px: seq<Bgr>, s: nat): seq<Byte>
    requires s < 4
  {
    var compressed := codec.Emitted(history, RgbWire(px));
    [s] + CompactLength.Encode(|compressed|) + compressed
  }

  /** The result for tile `i` when the tiles are encoded one after the other. */
  function Sequential(
    codec: Zlib.Codec, jpeg: seq<Bgr> -> seq<Byte>, start: seq<seq<seq<Byte>>>, tiles: seq<TileInfo>, i: nat): seq<Byte>
    requires |start| == 4 && i < |tiles| && (tiles[i].kind.BasicKind? ==> tiles[i].kind.stream < 4)
  {
    match tiles[i].kind
    case SolidKind(c) => [0x08, c.r, c.g, c.b]
    case JpegKind => [0x09] + CompactLength.Encode(|jpeg(tiles[i].px)|) + jpeg(tiles[i].px)
    case BasicKind(s) => BasicWire(codec, HistoryAt(start, tiles, i), tiles[i].px, s)
  }

  /** Item `k` of a goroutine's work is the k-th tile of its stream. */
  lemma {:induction false} WorkItem(tiles: seq<TileInfo>, s: nat, k: nat)
    requires k < |Work(tiles, s)|
    ensures |Plains(tiles, s)| == |Work(tiles, s)|
    ensures var i := Work(tiles, s)[k];
            && i < |tiles| && tiles[i].IsBasic(s)
            && Plains(tiles[..i], s) == Plains(tiles, s)[..k] && Plains(tiles, s)[k] == RgbWire(tiles[i].px)
    decreases |tiles|
  {
    var n := |tiles| - 1;
    var before := tiles[..n];
    WorkCount(tiles, s);
    WorkCount(before, s);
    if k < |Work(before, s)| {
      WorkItem(before, s, k);
      var i := Work(before, s)[k];
      assert Work(tiles, s)[k] == i && before[i] == tiles[i] && before[..i] == tiles[..i];
      assert Plains(tiles, s)[..k] == Plains(before, s)[..k];
    } else {
      assert Plains(tiles, s)[..k] == Plains(before, s);
    }
  }

  lemma {:induction false} WorkCount(tiles: seq<TileInfo>, s: nat)
    ensures |Plains(tiles, s)| == |Work(tiles, s)|
  {
    if tiles != [] { WorkCount(tiles[..|tiles| - 1], s); }
  }

  /** Every Basic tile is some goroutine's work. */
  lemma {:induction false} WorkHas(tiles: seq<TileInfo>, s: nat, i: nat) returns (k: nat)
    requires i < |tiles| && tiles[i].IsBasic(s)
    ensures k < |Work(tiles, s)| && Work(tiles, s)[k] == i
    decreases |tiles|
  {
    var n := |tiles| - 1;
    if i == n {
      k := |Work(tiles[..n], s)|;
    } else {
      assert tiles[..n][i] == tiles[i];
      k := WorkHas(tiles[..n], s, i);
    }
  }

  /** A goroutine never meets another one's tile, nor one of its own twice. */
  lemma {:induction false} WorkApart(tiles: seq<TileInfo>, s: nat, k: nat, t: nat, j: nat)
    requires k < |Work(tiles, s)| && j < |Work(tiles, t)| && Work(tiles, s)[k] == Work(tiles, t)[j]
    ensures s == t && k == j
  {
    WorkItem(tiles, s, k);
    WorkItem(tiles, t, j);
    assert |Plains(tiles[..Work(tiles, s)[k]], s)| == k;
  }

  /** Results so far, what each stream has compressed, and how far each stream's goroutine is. */
  datatype State = State(results: seq<Option<seq<Byte>>>, histories: seq<seq<seq<Byte>>>, next: seq<nat>)

  /** One goroutine encodes its next tile: the one of tile `i`'s JPEG, or the one of stream `s`. */
  datatype Action = EncodeJpeg(i: nat) | EncodeBasic(s: nat)

  /** Solid tiles are done before any goroutine starts. */
  function Start(tiles: seq<TileInfo>, start: seq<seq<seq<Byte>>>): State {
    State(seq(|tiles|, i requires 0 <= i < |tiles| =>
                if tiles[i].kind.SolidKind? then Some([0x08, tiles[i].kind.colour.r, tiles[i].kind.colour.g, tiles[i].kind.colour.b])
                else None),
          start, [0, 0, 0, 0])
  }

  predicate Shaped(tiles: seq<TileInfo>, st: State) {
    && |st.results| == |tiles| && |st.histories| == 4 && |st.next| == 4
    && forall s: nat :: s < 4 ==> st.next[s] <= |Work(tiles, s)|
  }

  predicate Enabled(tiles: seq<TileInfo>, st: State, a: Action)
    requires Shaped(tiles, st)
  {
    match a
    case EncodeJpeg(i) => i < |tiles| && tiles[i].kind.JpegKind? && st.results[i].None?
    case EncodeBasic(s) => s < 4 && st.next[s] < |Work(tiles, s)|
  }

  function Step(codec: Zlib.Codec, jpeg: seq<Bgr> -> seq<Byte>, tiles: seq<TileInfo>, st: State, a: Action): (later: State)
    requires Shaped(tiles, st) && Enabled(tiles, st, a)
    ensures Shaped(tiles, later)
  {
    match a
    case EncodeJpeg(i) =>
      var payload := jpeg(tiles[i].px);
      st.(results := st.results[i := Some([0x09] + CompactLength.Encode(|payload|) + payload)])
    case EncodeBasic(s) =>
      WorkItem(tiles, s, st.next[s]);
      var i := Work(tiles, s)[st.next[s]];
      State(st.results[i := Some(BasicWire(codec, st.histories[s], tiles[i].px, s))],
            st.histories[s := st.histories[s] + [RgbWire(tiles[i].px)]],
            st.next[s := st.next[s] + 1])
  }

  /** Stream numbers are 0 to 3. */
  predicate Numbered(tiles: seq<TileInfo>) {
    forall i :: 0 <= i < |tiles| ==> tiles[i].kind.BasicKind? ==> tiles[i].kind.stream < 4
  }

  /** Every result so far is the sequential one, and every stream has compressed the tiles its goroutine has passed. */
  ghost predicate Good(
    codec: Zlib.Codec, jpeg: seq<Bgr> -> seq<Byte>, start: seq<seq<seq<Byte>>>, tiles: seq<TileInfo>, st: State)
  {
    && |start| == 4 && Numbered(tiles) && Shaped(tiles, st)
    && (forall s: nat :: s < 4 ==> StreamGood(start, tiles, st, s))
    && (forall i: nat :: i < |tiles| ==> ResultGood(codec, jpeg, start, tiles, st, i))
    && (forall s: nat, k: nat :: s < 4 && k < st.next[s] ==> Passed(tiles, st, s, k))
  }

  ghost predicate StreamGood(start: seq<seq<seq<Byte>>>, tiles: seq<TileInfo>, st: State, s: nat)
    requires |start| == 4 && Shaped(tiles, st) && s < 4
  {
    st.next[s] <= |Plains(tiles, s)| && st.histories[s] == start[s] + Plains(tiles, s)[..st.next[s]]
  }

  ghost predicate ResultGood(
    codec: Zlib.Codec, jpeg: seq<Bgr> -> seq<Byte>, start: seq<seq<seq<Byte>>>, tiles: seq<TileInfo>, st: State, i: nat)
    requires |start| == 4 && Numbered(tiles) && Shaped(tiles, st) && i < |tiles|
  {
    && (st.results[i].Some? ==> st.results[i].value == Sequential(codec, jpeg, start, tiles, i))
    && (tiles[i].kind.SolidKind? ==> st.results[i].Some?)
  }

  ghost predicate Passed(tiles: seq<TileInfo>, st: State, s: nat, k: nat)
    requires Shaped(tiles, st) && s < 4 && k < st.next[s]
  {
    Work(tiles, s)[k] < |tiles| && st.results[Work(tiles, s)[k]].Some?
  }

  lemma {:induction false} StartGood(
    codec: Zlib.Codec, jpeg: seq<Bgr> -> seq<Byte>, start: seq<seq<seq<Byte>>>, tiles: seq<TileInfo>)
    requires |start| == 4 && Numbered(tiles)
    ensures Good(codec, jpeg, start, tiles, Start(tiles, start))
  {
    forall s: nat | s < 4 ensures StreamGood(start, tiles, Start(tiles, start), s) {
      assert start[s] + [] == start[s];
    }
  }

  /** What the goroutine of stream `s` writes for its next tile is what sequential encoding writes. */
  lemma {:induction false} NextBasic(
    codec: Zlib.Codec, jpeg: seq<Bgr> -> seq<Byte>, start: seq<seq<seq<Byte>>>, tiles: seq<TileInfo>, st: State, s: nat)
    requires Good(codec, jpeg, start, tiles, st) && s < 4 && st.next[s] < |Work(tiles, s)|
    ensures var i := Work(tiles, s)[st.next[s]];
            && i < |tiles| && tiles[i].IsBasic(s)
            && BasicWire(codec, st.histories[s], tiles[i].px, s) == Sequential(codec, jpeg, start, tiles, i)
            && st.next[s] < |Plains(tiles, s)|
            && st.histories[s] + [RgbWire(tiles[i].px)] == start[s] + Plains(tiles, s)[..st.next[s] + 1]
  {
    var k := st.next[s];
    WorkItem(tiles, s, k);
    assert StreamGood(start, tiles, st, s);
    var all := Plains(tiles, s);
    assert all[..k + 1] == all[..k] + [all[k]];
    assert start[s] + all[..k] + [all[k]] == start[s] + (all[..k] + [all[k]]);
  }

  lemma {:induction false} BasicKeeps(
    codec: Zlib.Codec, jpeg: seq<Bgr> -> seq<Byte>, start: seq<seq<seq<Byte>>>, tiles: seq<TileInfo>, st: State, s: nat)
    requires Good(codec, jpeg, start, tiles, st) && Enabled(tiles, st, EncodeBasic(s))
    ensures Good(codec, jpeg, start, tiles, Step(codec, jpeg, tiles, st, EncodeBasic(s)))
  {
    NextBasic(codec, jpeg, start, tiles, st, s);
    var later := Step(codec, jpeg, tiles, st, EncodeBasic(s));
    assert Shaped(tiles, later);
    forall t: nat | t < 4 ensures StreamGood(start, tiles, later, t) {
      assert StreamGood(start, tiles, st, t);
    }
    forall i: nat | i < |tiles| ensures ResultGood(codec, jpeg, start, tiles, later, i) {
      assert ResultGood(codec, jpeg, start, tiles, st, i);
    }
    forall t: nat, k: nat | t < 4 && k < later.next[t] ensures Passed(tiles, later, t, k) {
      if k < st.next[t] { assert Passed(tiles, st, t, k); }
    }
  }

  lemma {:induction false} JpegKeeps(
    codec: Zlib.Codec, jpeg: seq<Bgr> -> seq<Byte>, start: seq<seq<seq<Byte>>>, tiles: seq<TileInfo>, st: State, i: nat)
    requires Good(codec, jpeg, start, tiles, st) && Enabled(tiles, st, EncodeJpeg(i))
    ensures Good(codec, jpeg, start, tiles, Step(codec, jpeg, tiles, st, EncodeJpeg(i)))
  {
    var later := Step(codec, jpeg, tiles, st, EncodeJpeg(i));
    assert Shaped(tiles, later);
    forall t: nat | t < 4 ensures StreamGood(start, tiles, later, t) {
      assert StreamGood(start, tiles, st, t);
    }
    forall j: nat | j < |tiles| ensures ResultGood(codec, jpeg, start, tiles, later, j) {
      assert ResultGood(codec, jpeg, start, tiles, st, j);
    }
    forall t: nat, k: nat | t < 4 && k < later.next[t] ensures Passed(tiles, later, t, k) {
      assert Passed(tiles, st, t, k);
    }
  }

  lemma {:induction false} StepKeeps(
    codec: Zlib.Codec, jpeg: seq<Bgr> -> seq<Byte>, start: seq<seq<seq<Byte>>>, tiles: seq<TileInfo>, st: State, a: Action)
    requires Good(codec, jpeg, start, tiles, st) && Enabled(tiles, st, a)
    ensures Good(codec, jpeg, start, tiles, Step(codec, jpeg, tiles, st, a))
  {
    match a
    case EncodeJpeg(i) => JpegKeeps(codec, jpeg, start, tiles, st, i);
    case EncodeBasic(s) => BasicKeeps(codec, jpeg, start, tiles, st, s);
  }

  /** `wg.Wait()` returns: no goroutine has anything left to do. */
  predicate Finished(tiles: seq<TileInfo>, st: State)
    requires Shaped(tiles, st)
  {
    && (forall s: nat :: s < 4 ==> st.next[s] == |Work(tiles, s)|)
    && (forall i: nat :: i < |tiles| && tiles[i].kind.JpegKind? ==> st.results[i].Some?)
  }

  /** When all goroutines are done, every tile has the sequential result and every stream the sequential history. */
  lemma {:induction false} FinishedIsSequential(
    codec: Zlib.Codec, jpeg: seq<Bgr> -> seq<Byte>, start: seq<seq<seq<Byte>>>, tiles: seq<TileInfo>, st: State)
    requires Good(codec, jpeg, start, tiles, st) && Finished(tiles, st)
    ensures forall i: nat :: i < |tiles| ==> st.results[i] == Some(Sequential(codec, jpeg, start, tiles, i))
    ensures forall s: nat :: s < 4 ==> st.histories[s] == start[s] + Plains(tiles, s)
  {
    forall i: nat | i < |tiles| ensures st.results[i] == Some(Sequential(codec, jpeg, start, tiles, i)) {
      assert ResultGood(codec, jpeg, start, tiles, st, i);
      if tiles[i].kind.BasicKind? {
        var k := WorkHas(tiles, tiles[i].kind.stream, i);
        assert Passed(tiles, st, tiles[i].kind.stream, k);
      }
    }
    forall s: nat | s < 4 ensures st.histories[s] == start[s] + Plains(tiles, s) {
      assert StreamGood(start, tiles, st, s);
      WorkCount(tiles, s);
      assert Plains(tiles, s)[..|Plains(tiles, s)|] == Plains(tiles, s);
    }
  }

  /** A schedule: at each point, one goroutine that can go on does. */
  ghost predicate Schedule(codec: Zlib.Codec, jpeg: seq<Bgr> -> seq<Byte>, tiles: seq<TileInfo>, st: State, actions: seq<Action>)
    requires Shaped(tiles, st)
    decreases |actions|
  {
    actions == [] ||
    (Enabled(tiles, st, actions[0])
     && Schedule(codec, jpeg, tiles, Step(codec, jpeg, tiles, st, actions[0]), actions[1..]))
  }

  ghost function Run(codec: Zlib.Codec, jpeg: seq<Bgr> -> seq<Byte>, tiles: seq<TileInfo>, st: State, actions: seq<Action>): (r: State)
    requires Shaped(tiles, st) && Schedule(codec, jpeg, tiles, st, actions)
    ensures Shaped(tiles, r)
    decreases |actions|
  {
    if actions == [] then st else Run(codec, jpeg, tiles, Step(codec, jpeg, tiles, st, actions[0]), actions[1..])
  }

  lemma {:induction false} RunKeeps(
    codec: Zlib.Codec, jpeg: seq<Bgr> -> seq<Byte>, start: seq<seq<seq<Byte>>>, tiles: seq<TileInfo>, st: State,
    actions: seq<Action>)
    requires Good(codec, jpeg, start, tiles, st) && Schedule(codec, jpeg, tiles, st, actions)
    ensures Good(codec, jpeg, start, tiles, Run(codec, jpeg, tiles, st, actions))
    decreases |actions|
  {
    if actions != [] {
      StepKeeps(codec, jpeg, start, tiles, st, actions[0]);
      RunKeeps(codec, jpeg, start, tiles, Step(codec, jpeg, tiles, st, actions[0]), actions[1..]);
    }
  }

  /** Whatever the interleaving, the outcome is that of encoding the tiles one after the other. */
  lemma {:induction false} ScheduleIndependent(
    codec: Zlib.Codec, jpeg: seq<Bgr> -> seq<Byte>, start: seq<seq<seq<Byte>>>, tiles: seq<TileInfo>, actions: seq<Action>)
    requires |start| == 4 && Numbered(tiles)
    requires Schedule(codec, jpeg, tiles, Start(tiles, start), actions)
    requires Finished(tiles, Run(codec, jpeg, tiles, Start(tiles, start), actions))
    ensures var st := Run(codec, jpeg, tiles, Start(tiles, start), actions);
            && (forall i: nat :: i < |tiles| ==> st.results[i] == Some(Sequential(codec, jpeg, start, tiles, i)))
            && (forall s: nat :: s < 4 ==> st.histories[s] == start[s] + Plains(tiles, s))
  {
    StartGood(codec, jpeg, start, tiles);
    RunKeeps(codec, jpeg, start, tiles, Start(tiles, start), actions);
    FinishedIsSequential(codec, jpeg, start, tiles, Run(codec, jpeg, tiles, Start(tiles, start), actions));
  }

  /** How many goroutine steps are left. */
  function Left(tiles: seq<TileInfo>, st: State): nat
    requires Shaped(tiles, st)
  {
    JpegsLeft(tiles, st.results)
    + (|Work(tiles, 0)| - st.next[0]) + (|Work(tiles, 1)| - st.next[1])
    + (|Work(tiles, 2)| - st.next[2]) + (|Work(tiles, 3)| - st.next[3])
  }

  function JpegsLeft(tiles: seq<TileInfo>, results: seq<Option<seq<Byte>>>): nat
    requires |results| == |tiles|
  {
    if tiles == [] then 0
    else
      var n := |tiles| - 1;
      JpegsLeft(tiles[..n], results[..n]) + (if tiles[n].kind.JpegKind? && results[n].None? then 1 else 0)
  }

  lemma {:induction false} JpegsLeftAfter(tiles: seq<TileInfo>, results: seq<Option<seq<Byte>>>, i: nat, value: seq<Byte>)
    requires |results| == |tiles| && i < |tiles|
    ensures JpegsLeft(tiles, results[i := Some(value)]) ==
            JpegsLeft(tiles, results) - if tiles[i].kind.JpegKind? && results[i].None? then 1 else 0
    decreases |tiles|
  {
    var n := |tiles| - 1;
    if i < n {
      assert results[i := Some(value)][..n] == results[..n][i := Some(value)];
      JpegsLeftAfter(tiles[..n], results[..n], i, value);
    } else {
      assert results[i := Some(value)][..n] == results[..n];
    }
  }

  lemma {:induction false} StepShortens(codec: Zlib.Codec, jpeg: seq<Bgr> -> seq<Byte>, tiles: seq<TileInfo>, st: State, a: Action)
    requires Shaped(tiles, st) && Enabled(tiles, st, a)
    ensures Left(tiles, Step(codec, jpeg, tiles, st, a)) < Left(tiles, st)
  {
    match a
    case EncodeJpeg(i) =>
      JpegsLeftAfter(tiles, st.results, i, [0x09] + CompactLength.Encode(|jpeg(tiles[i].px)|) + jpeg(tiles[i].px));
    case EncodeBasic(s) =>
      WorkItem(tiles, s, st.next[s]);
      var i := Work(tiles, s)[st.next[s]];
      JpegsLeftAfter(tiles, st.results, i, BasicWire(codec, st.histories[s], tiles[i].px, s));
  }

  lemma {:induction false} UnfinishedCanGoOn(tiles: seq<TileInfo>, st: State)
    requires Shaped(tiles, st) && !Finished(tiles, st)
    ensures exists a :: Enabled(tiles, st, a)
  {
    if s: nat :| s < 4 && st.next[s] != |Work(tiles, s)| {
      assert Enabled(tiles, st, EncodeBasic(s));
    } else {
      var i: nat :| i < |tiles| && tiles[i].kind.JpegKind? && st.results[i].None?;
      assert Enabled(tiles, st, EncodeJpeg(i));
    }
  }
}
