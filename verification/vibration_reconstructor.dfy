/**
 * process_vibration: three vibration channels side by side, with the
 * timestamps of the first channel rebuilt from its sparse anchors. A row
 * whose timestamp is present is an anchor; it opens a block that runs up to
 * the next anchor, and every row of a block gets the anchor's instant plus
 * its position in the block divided by the sample rate. Instants are exact
 * real seconds.
 */
module VibrationReconstructor {
  import opened Common

  /** A row of one channel as loaded: its timestamp, if any, and its sample. */
  datatype Sample<V> = Sample(time: Option<real>, data: V)

  /** A row of the combined frame: `timestamp`, `vib_101`, `vib_102`, `vib_103`. */
  datatype VibRow<V> = VibRow(time: Option<real>, vib101: V, vib102: Option<V>, vib103: Option<V>)

  /** The sample rate process_vibration uses when none is given, in samples per second. */
  const DefaultSampleRate: int := 25000

  function Times<V>(ch: seq<Sample<V>>): (ts: seq<Option<real>>)
    ensures |ts| == |ch| && forall i {:trigger ts[i]} :: 0 <= i < |ch| ==> ts[i] == ch[i].time
  {
    seq(|ch|, i requires 0 <= i < |ch| => ch[i].time)
  }

  /**
   * Column assignment aligns on the row index: row i of the combined frame
   * takes row i of the other channel, or a missing value when that channel
   * is shorter.
   */
  function Aligned<V>(ch: seq<Sample<V>>, i: nat): (r: Option<V>)
    ensures r.Some? <==> i < |ch|
    ensures r.Some? ==> r.value == ch[i].data
  {
    if i < |ch| then Some(ch[i].data) else None
  }

  // ---------------------------------------------------------------------------
  // The block rule, as the grouping states it

  /** How many of the first n timestamps are present (the running count of anchors). */
  function Anchors(ts: seq<Option<real>>, n: nat): (c: nat)
    requires n <= |ts|
    ensures c <= n
  {
    if n == 0 then 0 else Anchors(ts, n - 1) + (if ts[n - 1].Some? then 1 else 0)
  }

  /** The block of row i: the number of anchors at or before it (0 before the first anchor). */
  function BlockId(ts: seq<Option<real>>, i: nat): nat
    requires i < |ts|
  {
    Anchors(ts, i + 1)
  }

  /** How many of the first n rows lie in block b (the per-group running count). */
  function CountInBlock(ts: seq<Option<real>>, b: nat, n: nat): (c: nat)
    requires n <= |ts|
    ensures c <= n
  {
    if n == 0 then 0 else CountInBlock(ts, b, n - 1) + (if BlockId(ts, n - 1) == b then 1 else 0)
  }

  /** The position of row i inside its block, counting from 0. */
  function SampleIndex(ts: seq<Option<real>>, i: nat): nat
    requires i < |ts|
  {
    CountInBlock(ts, BlockId(ts, i), i)
  }

  /** The first present timestamp of block b at or after row k, skipping missing ones. */
  function FirstInBlock(ts: seq<Option<real>>, b: nat, k: nat): Option<real>
    requires k <= |ts|
    decreases |ts| - k
  {
    if k == |ts| then None
    else if BlockId(ts, k) == b && ts[k].Some? then ts[k]
    else FirstInBlock(ts, b, k + 1)
  }

  /** The first present timestamp of row i's block, if the block has one. */
  function BlockStart(ts: seq<Option<real>>, i: nat): Option<real>
    requires i < |ts|
  {
    FirstInBlock(ts, BlockId(ts, i), 0)
  }

  /** The rebuilt timestamp of row i: block start plus sample index over the sample rate. */
  function Reconstructed(ts: seq<Option<real>>, rate: int, i: nat): Option<real>
    requires i < |ts| && rate != 0
  {
    match BlockStart(ts, i)
    case None => None
    case Some(t) => Some(t + SampleIndex(ts, i) as real / rate as real)
  }

  // ---------------------------------------------------------------------------
  // The same rule stated through the last anchor

  /** The last row at or before i whose timestamp is present. */
  function LastAnchor(ts: seq<Option<real>>, i: nat): (r: Option<nat>)
    requires i < |ts|
    ensures r.Some? ==> r.value <= i && ts[r.value].Some? && forall k :: r.value < k <= i ==> ts[k].None?
    ensures r.None? ==> forall k :: 0 <= k <= i ==> ts[k].None?
  {
    if ts[i].Some? then Some(i)
    else if i == 0 then None
    else LastAnchor(ts, i - 1)
  }

  lemma {:induction false} AnchorsMonotone(ts: seq<Option<real>>, m: nat, n: nat)
    requires m <= n <= |ts|
    ensures Anchors(ts, m) <= Anchors(ts, n)
    decreases n - m
  {
    if m < n {
      AnchorsMonotone(ts, m, n - 1);
    }
  }

  /** Without an anchor in rows m..n-1 the running count does not move. */
  lemma {:induction false} AnchorsFlat(ts: seq<Option<real>>, m: nat, n: nat)
    requires m <= n <= |ts|
    requires forall k :: m <= k < n ==> ts[k].None?
    ensures Anchors(ts, m) == Anchors(ts, n)
    decreases n - m
  {
    if m < n {
      AnchorsFlat(ts, m, n - 1);
    }
  }

  /** No row before n lies in a block beyond the count of anchors among them. */
  lemma {:induction false} CountInLaterBlock(ts: seq<Option<real>>, b: nat, n: nat)
    requires n <= |ts| && Anchors(ts, n) < b
    ensures CountInBlock(ts, b, n) == 0
  {
    if n > 0 {
      AnchorsMonotone(ts, n - 1, n);
      CountInLaterBlock(ts, b, n - 1);
    }
  }

  /** Rows j..n-1 all lie in block b, so each adds one to the count. */
  lemma {:induction false} CountInSameBlock(ts: seq<Option<real>>, b: nat, j: nat, n: nat)
    requires j <= n <= |ts|
    requires forall k :: j <= k < n ==> BlockId(ts, k) == b
    ensures CountInBlock(ts, b, n) == CountInBlock(ts, b, j) + (n - j)
    decreases n - j
  {
    if j < n {
      CountInSameBlock(ts, b, j, n - 1);
    }
  }

  /** The search for block b's start passes over rows of other blocks. */
  lemma {:induction false} FirstInBlockSkips(ts: seq<Option<real>>, b: nat, k: nat, j: nat)
    requires k <= j <= |ts|
    requires forall m :: k <= m < j ==> BlockId(ts, m) != b
    ensures FirstInBlock(ts, b, k) == FirstInBlock(ts, b, j)
    decreases j - k
  {
    if k < j {
      FirstInBlockSkips(ts, b, k + 1, j);
    }
  }

  /** Block 0 holds only the rows before the first anchor, so it has no start. */
  lemma {:induction false} BlockZeroHasNoStart(ts: seq<Option<real>>, k: nat)
    requires k <= |ts|
    ensures FirstInBlock(ts, 0, k) == None
    decreases |ts| - k
  {
    if k < |ts| {
      BlockZeroHasNoStart(ts, k + 1);
    }
  }

  /** Rows from anchor j up to i, with no anchor after j, all lie in block Anchors(ts, j) + 1. */
  lemma AnchoredBlock(ts: seq<Option<real>>, j: nat, i: nat)
    requires j <= i < |ts| && ts[j].Some?
    requires forall k :: j < k <= i ==> ts[k].None?
    ensures forall k :: j <= k <= i ==> BlockId(ts, k) == Anchors(ts, j) + 1
  {
    AnchorsFlat(ts, j + 1, i + 1);
    forall k | j <= k <= i
      ensures BlockId(ts, k) == Anchors(ts, j) + 1
    {
      AnchorsMonotone(ts, j + 1, k + 1);
      AnchorsMonotone(ts, k + 1, i + 1);
    }
  }

  /** Rows before anchor j lie in earlier blocks. */
  lemma EarlierBlocks(ts: seq<Option<real>>, j: nat)
    requires j < |ts|
    ensures forall m :: 0 <= m < j ==> BlockId(ts, m) <= Anchors(ts, j)
  {
    forall m | 0 <= m < j
      ensures BlockId(ts, m) <= Anchors(ts, j)
    {
      AnchorsMonotone(ts, m + 1, j);
    }
  }

  /**
   * A row after its block's anchor j: same block, position i - j inside it,
   * and the anchor's instant as the block start.
   */
  lemma AnchoredRow(ts: seq<Option<real>>, j: nat, i: nat)
    requires j <= i < |ts| && ts[j].Some?
    requires forall k :: j < k <= i ==> ts[k].None?
    ensures BlockId(ts, i) == BlockId(ts, j) == Anchors(ts, j) + 1
    ensures SampleIndex(ts, i) == i - j
    ensures BlockStart(ts, i) == ts[j]
  {
    var b := Anchors(ts, j) + 1;
    AnchoredBlock(ts, j, i);
    assert BlockId(ts, i) == b;
    CountInLaterBlock(ts, b, j);
    CountInSameBlock(ts, b, j, i);
    EarlierBlocks(ts, j);
    FirstInBlockSkips(ts, b, 0, j);
  }

  /** From anchor j on, up to the next anchor, row i is rebuilt as ts[j] plus (i - j) over the rate. */
  lemma ReconstructedAfterAnchor(ts: seq<Option<real>>, rate: int, j: nat, i: nat)
    requires j <= i < |ts| && ts[j].Some? && rate != 0
    requires forall k :: j < k <= i ==> ts[k].None?
    ensures Reconstructed(ts, rate, i) == Some(ts[j].value + (i - j) as real / rate as real)
  {
    AnchoredRow(ts, j, i);
  }

  /** A row before the first anchor: block 0, position i, and no block start. */
  lemma RowBeforeFirstAnchor(ts: seq<Option<real>>, i: nat)
    requires i < |ts|
    requires forall k :: 0 <= k <= i ==> ts[k].None?
    ensures BlockId(ts, i) == 0
    ensures SampleIndex(ts, i) == i
    ensures BlockStart(ts, i) == None
  {
    AnchorsFlat(ts, 0, i + 1);
    forall k | 0 <= k < i
      ensures BlockId(ts, k) == 0
    {
      AnchorsMonotone(ts, k + 1, i + 1);
    }
    CountInSameBlock(ts, 0, 0, i);
    BlockZeroHasNoStart(ts, 0);
  }

  /**
   * Row i's timestamp counted from the last anchor: missing before the first
   * anchor, otherwise the anchor's instant plus the distance to it over the rate.
   */
  function AnchorTime(ts: seq<Option<real>>, rate: int, i: nat): Option<real>
    requires i < |ts| && rate != 0
  {
    match LastAnchor(ts, i)
    case None => None
    case Some(j) => Some(ts[j].value + (i - j) as real / rate as real)
  }

  /** The grouping rule and the last-anchor rule rebuild the same timestamp. */
  lemma ReconstructedFromLastAnchor(ts: seq<Option<real>>, rate: int, i: nat)
    requires i < |ts| && rate != 0
    ensures Reconstructed(ts, rate, i) == AnchorTime(ts, rate, i)
  {
    match LastAnchor(ts, i)
    case None => RowBeforeFirstAnchor(ts, i);
    case Some(j) => ReconstructedAfterAnchor(ts, rate, j, i);
  }

  /** An anchor row keeps its own instant. */
  lemma AnchorKeepsInstant(ts: seq<Option<real>>, rate: int, i: nat)
    requires i < |ts| && rate != 0 && ts[i].Some?
    ensures Reconstructed(ts, rate, i) == ts[i]
  {
    ReconstructedAfterAnchor(ts, rate, i, i);
  }

  /** Rows before the first anchor have no timestamp. */
  lemma NoTimestampBeforeFirstAnchor(ts: seq<Option<real>>, rate: int, i: nat)
    requires i < |ts| && rate != 0
    ensures Reconstructed(ts, rate, i).None? <==> forall k :: 0 <= k <= i ==> ts[k].None?
  {
    ReconstructedFromLastAnchor(ts, rate, i);
  }

  /** Two rows in the same block have no anchor between them. */
  lemma {:induction false} SameBlockNoAnchorBetween(ts: seq<Option<real>>, i: nat, i': nat)
    requires i < i' < |ts| && BlockId(ts, i) == BlockId(ts, i')
    ensures forall k :: i < k <= i' ==> ts[k].None?
  {
    forall k | i < k <= i'
      ensures ts[k].None?
    {
      AnchorsMonotone(ts, i + 1, k);
      AnchorsMonotone(ts, k + 1, i' + 1);
    }
  }

  /** With a positive sample rate the rebuilt timestamps strictly increase within a block. */
  lemma IncreasingWithinBlock(ts: seq<Option<real>>, rate: int, i: nat, i': nat)
    requires rate > 0 && i < i' < |ts| && BlockId(ts, i) == BlockId(ts, i')
    requires Reconstructed(ts, rate, i).Some?
    ensures Reconstructed(ts, rate, i').Some?
    ensures Reconstructed(ts, rate, i).value < Reconstructed(ts, rate, i').value
  {
    ReconstructedFromLastAnchor(ts, rate, i);
    var j := LastAnchor(ts, i).value;
    SameBlockNoAnchorBetween(ts, i, i');
    ReconstructedAfterAnchor(ts, rate, j, i');
    QuotientIncreasing(i - j, i' - j, rate);
  }

  lemma QuotientIncreasing(a: nat, b: nat, rate: int)
    requires a < b && rate > 0
    ensures a as real / rate as real < b as real / rate as real
  {
    var r := rate as real;
    assert b as real / r - a as real / r == (b - a) as real / r;
  }

  /** The row after a rebuilt row, with no anchor of its own, lies one sample interval later. */
  lemma NextSampleOneIntervalLater(ts: seq<Option<real>>, rate: int, i: nat)
    requires rate != 0 && i + 1 < |ts| && ts[i + 1].None?
    requires Reconstructed(ts, rate, i).Some?
    ensures Reconstructed(ts, rate, i + 1).Some?
    ensures Reconstructed(ts, rate, i + 1).value == Reconstructed(ts, rate, i).value + 1.0 / rate as real
  {
    ReconstructedFromLastAnchor(ts, rate, i);
    var j := LastAnchor(ts, i).value;
    ReconstructedAfterAnchor(ts, rate, j, i + 1);
    OneMoreInterval(i - j, rate as real);
  }

  lemma OneMoreInterval(n: int, r: real)
    requires r != 0.0
    ensures (n + 1) as real / r == n as real / r + 1.0 / r
  {
  }

  /** At the default rate of 25000 samples per second, consecutive samples of a block are 40 microseconds apart. */
  lemma DefaultRateSpacing(ts: seq<Option<real>>, i: nat)
    requires i + 1 < |ts| && ts[i + 1].None?
    requires Reconstructed(ts, DefaultSampleRate, i).Some?
    ensures Reconstructed(ts, DefaultSampleRate, i + 1).Some?
    ensures Reconstructed(ts, DefaultSampleRate, i + 1).value == Reconstructed(ts, DefaultSampleRate, i).value + 0.00004
  {
    NextSampleOneIntervalLater(ts, DefaultSampleRate, i);
  }

  /** One anchor, three unstamped samples, the next anchor, at 4 samples per second. */
  lemma QuarterSecondBlock(ts: seq<Option<real>>)
    requires ts == [Some(0.0), None, None, None, Some(1.0)]
    ensures && Reconstructed(ts, 4, 0) == Some(0.0)
            && Reconstructed(ts, 4, 1) == Some(0.25)
            && Reconstructed(ts, 4, 2) == Some(0.5)
            && Reconstructed(ts, 4, 3) == Some(0.75)
            && Reconstructed(ts, 4, 4) == Some(1.0)
  {
    ReconstructedAfterAnchor(ts, 4, 0, 0);
    ReconstructedAfterAnchor(ts, 4, 0, 1);
    ReconstructedAfterAnchor(ts, 4, 0, 2);
    ReconstructedAfterAnchor(ts, 4, 0, 3);
    ReconstructedAfterAnchor(ts, 4, 4, 4);
  }

  // ---------------------------------------------------------------------------
  // The scan

  /**
   * What the scan carries into row i: the last anchor before i, the instant
   * of that anchor as block start, and the position of row i in its block.
   */
  ghost predicate Carried(ts: seq<Option<real>>, i: nat, last: Option<nat>, start: Option<real>, index: nat)
    requires i <= |ts|
  {
    && (if i == 0 then last.None? else last == LastAnchor(ts, i - 1))
    && (last.None? ==> start.None? && index == i)
    && (last.Some? ==> last.value < i && start == ts[last.value] && index == i - last.value)
  }

  /**
   * Row i resets the carried state when it is an anchor. The state then gives
   * row i's rebuilt timestamp and, one position on, is carried into row i + 1.
   */
  lemma CarryThroughRow(ts: seq<Option<real>>, rate: int, i: nat, last: Option<nat>, start: Option<real>, index: nat)
    requires i < |ts| && rate != 0 && Carried(ts, i, last, start, index)
    ensures var last' := if ts[i].Some? then Some(i) else last;
            var start' := if ts[i].Some? then ts[i] else start;
            var index' := if ts[i].Some? then 0 else index;
            && Carried(ts, i + 1, last', start', index' + 1)
            && AnchorTime(ts, rate, i) == match start'
                                          case None => None
                                          case Some(t) => Some(t + index' as real / rate as real)
  {
  }

  /** out holds the first n rows of the combined frame, timestamps counted from the last anchor. */
  ghost predicate RowsBuilt<V>(out: seq<VibRow<V>>, ch101: seq<Sample<V>>, ch102: seq<Sample<V>>, ch103: seq<Sample<V>>,
                               rate: int, n: nat)
    requires rate != 0 && n <= |ch101|
  {
    && |out| == n
    && forall k :: 0 <= k < n ==>
         out[k] == VibRow(AnchorTime(Times(ch101), rate, k), ch101[k].data, Aligned(ch102, k), Aligned(ch103, k))
  }

  /** Row i, rebuilt, extends the rows already built. */
  lemma AppendRow<V>(out: seq<VibRow<V>>, ch101: seq<Sample<V>>, ch102: seq<Sample<V>>, ch103: seq<Sample<V>>,
                     rate: int, i: nat, time: Option<real>)
    requires rate != 0 && i < |ch101| && RowsBuilt(out, ch101, ch102, ch103, rate, i)
    requires time == AnchorTime(Times(ch101), rate, i)
    ensures RowsBuilt(out + [VibRow(time, ch101[i].data, Aligned(ch102, i), Aligned(ch103, i))], ch101, ch102, ch103, rate, i + 1)
  {
  }

  /** Rows built by the last-anchor rule are the rows the grouping rule defines. */
  lemma BuiltRowsAreReconstructed<V>(out: seq<VibRow<V>>, ch101: seq<Sample<V>>, ch102: seq<Sample<V>>, ch103: seq<Sample<V>>,
                                     rate: int)
    requires rate != 0 && RowsBuilt(out, ch101, ch102, ch103, rate, |ch101|)
    ensures |out| == |ch101|
    ensures forall i :: 0 <= i < |ch101| ==>
              out[i] == VibRow(Reconstructed(Times(ch101), rate, i), ch101[i].data, Aligned(ch102, i), Aligned(ch103, i))
  {
    forall i | 0 <= i < |ch101|
      ensures out[i] == VibRow(Reconstructed(Times(ch101), rate, i), ch101[i].data, Aligned(ch102, i), Aligned(ch103, i))
    {
      ReconstructedFromLastAnchor(Times(ch101), rate, i);
    }
  }

  /**
   * process_vibration. One pass over the rows keeps the current block start
   * and the position inside the block; an anchor resets both.
   */
  method ProcessVibration<V>(ch101: seq<Sample<V>>, ch102: seq<Sample<V>>, ch103: seq<Sample<V>>, sampleRate: int)
    returns (out: seq<VibRow<V>>)
    requires sampleRate != 0
    ensures |out| == |ch101|
    ensures forall i :: 0 <= i < |ch101| ==>
              out[i] == VibRow(Reconstructed(Times(ch101), sampleRate, i), ch101[i].data, Aligned(ch102, i), Aligned(ch103, i))
  {
    ghost var ts := Times(ch101);
    var start: Option<real> := None;
    var index: nat := 0;
    ghost var last: Option<nat> := None;
    out := [];
    var i := 0;
    while i < |ch101|
      invariant i <= |ch101| && RowsBuilt(out, ch101, ch102, ch103, sampleRate, i)
      invariant Carried(ts, i, last, start, index)
    {
      CarryThroughRow(ts, sampleRate, i, last, start, index);
      if ch101[i].time.Some? {
        start := ch101[i].time;
        index := 0;
        last := Some(i);
      }
      var time := match start
                  case None => None
                  case Some(t) => Some(t + index as real / sampleRate as real);
      AppendRow(out, ch101, ch102, ch103, sampleRate, i, time);
      out := out + [VibRow(time, ch101[i].data, Aligned(ch102, i), Aligned(ch103, i))];
      index := index + 1;
      i := i + 1;
    }
    BuiltRowsAreReconstructed(out, ch101, ch102, ch103, sampleRate);
  }
}
