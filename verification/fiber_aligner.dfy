/**
 * process_fibers: two fiber frames fused by a nearest-timestamp asof join with
 * a 1 ms tolerance, after which column `f_sensor_2_5` and every row that still
 * holds a missing value are dropped. Timestamps are integer nanoseconds.
 */
module FiberAligner {
  import opened Common

  /** A row of a fiber frame: its instant in nanoseconds and its value cells. */
  datatype Row<V> = Row(time: int, cells: seq<Option<V>>)

  /** A fiber frame: the names of its value columns and its rows; `timestamp` is the rows' time. */
  datatype Frame<V> = Frame(names: seq<string>, rows: seq<Row<V>>)

  /** Every row has one cell per value column. */
  ghost predicate Shaped<V>(f: Frame<V>)
  {
    forall i :: 0 <= i < |f.rows| ==> |f.rows[i].cells| == |f.names|
  }

  function Times<V>(f: Frame<V>): (ts: seq<int>)
    ensures |ts| == |f.rows| && forall i {:trigger ts[i]} :: 0 <= i < |f.rows| ==> ts[i] == f.rows[i].time
  {
    seq(|f.rows|, i requires 0 <= i < |f.rows| => f.rows[i].time)
  }

  /** The join tolerance, one millisecond in nanoseconds; a difference equal to it still matches. */
  const Tolerance: nat := 1_000_000

  /** The fiber-2 channel that is dropped after the join. */
  const DroppedColumn := "f_sensor_2_5"

  const Fiber1Names: map<string, string> :=
    map["sensor_1" := "f_sensor_1_1", "sensor_2" := "f_sensor_1_2", "sensor_3" := "f_sensor_1_3",
        "sensor_4" := "f_sensor_1_4", "sensor_5" := "f_sensor_1_5"]

  const Fiber2Names: map<string, string> :=
    map["sensor_1" := "f_sensor_2_1", "sensor_2" := "f_sensor_2_2", "sensor_3" := "f_sensor_2_3",
        "sensor_4" := "f_sensor_2_4", "sensor_5" := "f_sensor_2_5"]

  /** DataFrame.rename(columns=m): names m lists are replaced, the others kept. */
  function Rename(names: seq<string>, m: map<string, string>): (r: seq<string>)
    ensures |r| == |names|
  {
    seq(|names|, i requires 0 <= i < |names| => if names[i] in m then m[names[i]] else names[i])
  }

  /** A value column present on both sides of a join gets a suffix on each side. */
  function Suffixed(names: seq<string>, others: seq<string>, suffix: string): (r: seq<string>)
    ensures |r| == |names|
  {
    seq(|names|, i requires 0 <= i < |names| => if names[i] in others then names[i] + suffix else names[i])
  }

  /** The value columns of the joined frame: fiber 1's, then fiber 2's. */
  function MergedNames(names1: seq<string>, names2: seq<string>): (r: seq<string>)
    ensures |r| == |names1| + |names2|
  {
    var left := Rename(names1, Fiber1Names);
    var right := Rename(names2, Fiber2Names);
    Suffixed(left, right, "_x") + Suffixed(right, left, "_y")
  }

  /** The value columns a fiber dataset can hold that the renaming knows about. */
  const SensorChannels: set<string> := {"sensor_1", "sensor_2", "sensor_3", "sensor_4", "sensor_5"}

  const FiveSensors: seq<string> := ["sensor_1", "sensor_2", "sensor_3", "sensor_4", "sensor_5"]

  /** The fused columns of two five-sensor frames: all of fiber 1's, and fiber 2's but the dropped one. */
  const FusedFiber1Columns: seq<string> := ["f_sensor_1_1", "f_sensor_1_2", "f_sensor_1_3", "f_sensor_1_4", "f_sensor_1_5"]
  const FusedFiber2Columns: seq<string> := ["f_sensor_2_1", "f_sensor_2_2", "f_sensor_2_3", "f_sensor_2_4"]

  /** Every value column is one of `sensor_1` .. `sensor_5`. */
  predicate OnlySensorChannels(names: seq<string>)
  {
    forall i :: 0 <= i < |names| ==> names[i] in SensorChannels
  }

  /** Fiber-1 renames carry a `1` where fiber-2 renames carry a `2`, and the channel digit last. */
  lemma RenamedChannel(x: string)
    requires x in SensorChannels
    ensures |Fiber1Names[x]| == 12 && Fiber1Names[x][9] == '1'
    ensures |Fiber2Names[x]| == 12 && Fiber2Names[x][9] == '2'
    ensures Fiber2Names[x] == DroppedColumn <==> x == "sensor_5"
  {
  }

  /**
   * With value columns from `sensor_1` .. `sensor_5` on both sides the two
   * renamings never collide, so no suffix is added, and the dropped column is
   * present exactly when fiber 2 holds `sensor_5`.
   */
  lemma RenamedSidesDisjoint(names1: seq<string>, names2: seq<string>)
    requires OnlySensorChannels(names1) && OnlySensorChannels(names2)
    ensures MergedNames(names1, names2) == Rename(names1, Fiber1Names) + Rename(names2, Fiber2Names)
    ensures DroppedColumn !in Rename(names1, Fiber1Names)
    ensures DroppedColumn in Rename(names2, Fiber2Names) <==> "sensor_5" in names2
  {
    var left, right := Rename(names1, Fiber1Names), Rename(names2, Fiber2Names);
    forall i, j | 0 <= i < |left| && 0 <= j < |right| ensures left[i] != right[j] {
      RenamedChannel(names1[i]);
      RenamedChannel(names2[j]);
      assert left[i][9] != right[j][9];
    }
    assert Suffixed(left, right, "_x") == left;
    assert Suffixed(right, left, "_y") == right;
    forall i | 0 <= i < |left| ensures left[i] != DroppedColumn {
      RenamedChannel(names1[i]);
      assert DroppedColumn[9] == '2';
    }
    forall j | 0 <= j < |right| ensures right[j] == DroppedColumn <==> names2[j] == "sensor_5" {
      RenamedChannel(names2[j]);
    }
  }

  // ---------------------------------------------------------------------------
  // The nearest match

  function Abs(x: int): nat
  {
    if x < 0 then -x else x
  }

  /** The last of the first n right instants that is at or before t (the backward search). */
  function LastAtOrBefore(rt: seq<int>, t: int, n: nat): (r: Option<nat>)
    requires n <= |rt|
    ensures r.Some? ==> r.value < n && rt[r.value] <= t && forall k :: r.value < k < n ==> rt[k] > t
    ensures r.None? ==> forall k :: 0 <= k < n ==> rt[k] > t
  {
    if n == 0 then None
    else if rt[n - 1] <= t then Some(n - 1)
    else LastAtOrBefore(rt, t, n - 1)
  }

  /** The first right instant from position k on that is at or after t (the forward search). */
  function FirstAtOrAfter(rt: seq<int>, t: int, k: nat): (r: Option<nat>)
    requires k <= |rt|
    ensures r.Some? ==> k <= r.value < |rt| && rt[r.value] >= t && forall j :: k <= j < r.value ==> rt[j] < t
    ensures r.None? ==> forall j :: k <= j < |rt| ==> rt[j] < t
    decreases |rt| - k
  {
    if k == |rt| then None
    else if rt[k] >= t then Some(k)
    else FirstAtOrAfter(rt, t, k + 1)
  }

  /**
   * The right row `merge_asof(direction='nearest', tolerance=1ms)` joins to
   * a left row at instant t: the backward and the forward candidate, each
   * kept only within the tolerance, and the backward one on a tie.
   */
  function Match(rt: seq<int>, t: int): (r: Option<nat>)
    ensures r.Some? ==> r.value < |rt|
  {
    Closer(rt, t, Backward(rt, t), Forward(rt, t))
  }

  /** The last row at or before t, if it is within the tolerance. */
  function Backward(rt: seq<int>, t: int): (r: Option<nat>)
    ensures r.Some? ==> r.value < |rt|
  {
    match LastAtOrBefore(rt, t, |rt|)
    case Some(j) => if t - rt[j] <= Tolerance then Some(j) else None
    case None => None
  }

  /** The first row at or after t, if it is within the tolerance. */
  function Forward(rt: seq<int>, t: int): (r: Option<nat>)
    ensures r.Some? ==> r.value < |rt|
  {
    match FirstAtOrAfter(rt, t, 0)
    case Some(j) => if rt[j] - t <= Tolerance then Some(j) else None
    case None => None
  }

  /** Of two candidates, the one closer to t; the backward one on a tie. */
  function Closer(rt: seq<int>, t: int, back: Option<nat>, forward: Option<nat>): (r: Option<nat>)
    requires back.Some? ==> back.value < |rt|
    requires forward.Some? ==> forward.value < |rt|
    ensures r == back || r == forward
  {
    if back.Some? && forward.Some? then
      (if t - rt[back.value] <= rt[forward.value] - t then back else forward)
    else if back.Some? then back
    else forward
  }

  /** Row j of the right instants is as close to t as any other. */
  ghost predicate Nearest(rt: seq<int>, t: int, j: nat)
  {
    j < |rt| && forall k :: 0 <= k < |rt| ==> Abs(rt[j] - t) <= Abs(rt[k] - t)
  }

  /**
   * On sorted right instants the join picks a nearest row within the
   * tolerance, and picks none exactly when every row is farther away.
   */
  lemma MatchIsNearestWithinTolerance(rt: seq<int>, t: int)
    requires Sorted(rt)
    ensures Match(rt, t).Some? ==>
            Nearest(rt, t, Match(rt, t).value) && Abs(rt[Match(rt, t).value] - t) <= Tolerance
    ensures Match(rt, t).None? <==> forall k :: 0 <= k < |rt| ==> Abs(rt[k] - t) > Tolerance
  {
    CandidatesAreClosest(rt, t);
  }

  /** Every right row is at least as far from t as the backward or the forward candidate. */
  lemma CandidatesAreClosest(rt: seq<int>, t: int)
    requires Sorted(rt)
    ensures var b, f := LastAtOrBefore(rt, t, |rt|), FirstAtOrAfter(rt, t, 0);
            forall k :: 0 <= k < |rt| ==>
              || (b.Some? && Abs(rt[k] - t) >= t - rt[b.value])
              || (f.Some? && Abs(rt[k] - t) >= rt[f.value] - t)
  {
    var b := LastAtOrBefore(rt, t, |rt|);
    var f := FirstAtOrAfter(rt, t, 0);
    forall k | 0 <= k < |rt|
      ensures (b.Some? && Abs(rt[k] - t) >= t - rt[b.value])
           || (f.Some? && Abs(rt[k] - t) >= rt[f.value] - t)
    {
      if rt[k] <= t {
        assert b.Some? && k <= b.value;
        assert rt[k] <= rt[b.value];
      } else {
        assert f.Some? && f.value <= k;
        assert rt[f.value] <= rt[k];
      }
    }
  }

  /**
   * The join as a sorted two-pointer sweep: `below` counts the right instants
   * at or before the current left instant, `strictlyBelow` those before it;
   * both only move forward, so the sweep takes |lt| + |rt| steps.
   */
  method NearestMatches(lt: seq<int>, rt: seq<int>) returns (m: seq<Option<nat>>)
    requires Sorted(lt) && Sorted(rt)
    ensures |m| == |lt|
    ensures forall i :: 0 <= i < |lt| ==> m[i] == Match(rt, lt[i])
  {
    m := [];
    var below, strictlyBelow := 0, 0;
    var i := 0;
    while i < |lt|
      invariant 0 <= i <= |lt| && |m| == i
      invariant 0 <= strictlyBelow <= |rt| && 0 <= below <= |rt|
      invariant forall k :: 0 <= k < i ==> m[k] == Match(rt, lt[k])
      invariant i == 0 ==> below == 0 && strictlyBelow == 0
      invariant i > 0 ==> forall k :: 0 <= k < below ==> rt[k] <= lt[i - 1]
      invariant i > 0 ==> forall k :: 0 <= k < strictlyBelow ==> rt[k] < lt[i - 1]
    {
      var t := lt[i];
      assert i > 0 ==> lt[i - 1] <= t;
      while below < |rt| && rt[below] <= t
        invariant 0 <= below <= |rt|
        invariant forall k :: 0 <= k < below ==> rt[k] <= t
      {
        below := below + 1;
      }
      while strictlyBelow < |rt| && rt[strictlyBelow] < t
        invariant 0 <= strictlyBelow <= |rt|
        invariant forall k :: 0 <= k < strictlyBelow ==> rt[k] < t
      {
        strictlyBelow := strictlyBelow + 1;
      }
      SweepFindsCandidates(rt, t, below, strictlyBelow);
      var j := Pick(rt, t, below, strictlyBelow);
      AppendMatch(m, lt, rt, i, j);
      m := m + [j];
      i := i + 1;
    }
  }

  /** Where the sweep's pointers stop are the backward and forward candidates. */
  lemma SweepFindsCandidates(rt: seq<int>, t: int, below: nat, strictlyBelow: nat)
    requires Sorted(rt) && below <= |rt| && strictlyBelow <= |rt|
    requires forall k :: 0 <= k < below ==> rt[k] <= t
    requires below == |rt| || rt[below] > t
    requires forall k :: 0 <= k < strictlyBelow ==> rt[k] < t
    requires strictlyBelow == |rt| || rt[strictlyBelow] >= t
    ensures LastAtOrBefore(rt, t, |rt|) == if below > 0 then Some(below - 1) else None
    ensures FirstAtOrAfter(rt, t, 0) == if strictlyBelow < |rt| then Some(strictlyBelow) else None
  {
    if below > 0 {
      assert rt[below - 1] <= t;
    }
    if below < |rt| {
      forall k | below <= k < |rt| ensures rt[k] > t {
        assert rt[below] <= rt[k];
      }
    }
    if strictlyBelow < |rt| {
      assert rt[strictlyBelow] >= t;
    }
  }

  /**
   * The match the sweep reads off its pointers: the row just below-or-at t and
   * the first row at-or-above t, each within the tolerance, the lower on a tie.
   */
  function Pick(rt: seq<int>, t: int, below: nat, strictlyBelow: nat): (r: Option<nat>)
    requires Sorted(rt) && below <= |rt| && strictlyBelow <= |rt|
    requires forall k :: 0 <= k < below ==> rt[k] <= t
    requires below == |rt| || rt[below] > t
    requires forall k :: 0 <= k < strictlyBelow ==> rt[k] < t
    requires strictlyBelow == |rt| || rt[strictlyBelow] >= t
    ensures r == Match(rt, t)
  {
    SweepFindsCandidates(rt, t, below, strictlyBelow);
    var back: Option<nat> := if below > 0 && t - rt[below - 1] <= Tolerance then Some(below - 1) else None;
    var forward: Option<nat> := if strictlyBelow < |rt| && rt[strictlyBelow] - t <= Tolerance then Some(strictlyBelow) else None;
    assert back == Backward(rt, t) && forward == Forward(rt, t);
    Closer(rt, t, back, forward)
  }

  /** One more matched left instant extends the matched prefix. */
  lemma AppendMatch(m: seq<Option<nat>>, lt: seq<int>, rt: seq<int>, i: nat, j: Option<nat>)
    requires i < |lt| && |m| == i && j == Match(rt, lt[i])
    requires forall k :: 0 <= k < i ==> m[k] == Match(rt, lt[k])
    ensures forall k :: 0 <= k < i + 1 ==> (m + [j])[k] == Match(rt, lt[k])
  {
  }

  // ---------------------------------------------------------------------------
  // The fused frame

  function Nulls<V>(n: nat): (r: seq<Option<V>>)
    ensures |r| == n && forall i :: 0 <= i < n ==> r[i].None?
  {
    seq(n, i => None)
  }

  /** The joined cells of left row i: its own, then the matched right row's or nulls. */
  function Joined<V>(left: Frame<V>, right: Frame<V>, i: nat): (r: seq<Option<V>>)
    requires i < |left.rows| && Shaped(right)
  {
    match Match(Times(right), left.rows[i].time)
    case Some(j) => left.rows[i].cells + right.rows[j].cells
    case None => left.rows[i].cells + Nulls(|right.names|)
  }

  /** The entries of xs whose column is not the dropped one. */
  function Select<X>(names: seq<string>, xs: seq<X>): (r: seq<X>)
    requires |xs| == |names|
    ensures |r| <= |names|
  {
    if |names| == 0 then []
    else (if names[0] == DroppedColumn then [] else [xs[0]]) + Select(names[1..], xs[1..])
  }

  lemma {:induction false} SelectLength<X, Y>(names: seq<string>, xs: seq<X>, ys: seq<Y>)
    requires |xs| == |names| == |ys|
    ensures |Select(names, xs)| == |Select(names, ys)|
  {
    if |names| > 0 {
      SelectLength(names[1..], xs[1..], ys[1..]);
    }
  }

  /** Selection works column by column, so it splits over the two sides of the joined frame. */
  lemma {:induction false} SelectAppend(a: seq<string>, b: seq<string>)
    ensures Select(a + b, a + b) == Select(a, a) + Select(b, b)
  {
    if |a| > 0 {
      assert (a + b)[1..] == a[1..] + b;
      SelectAppend(a[1..], b);
    } else {
      assert a + b == b;
    }
  }

  /** Without the dropped column, selection keeps every entry. */
  lemma {:induction false} SelectNothingDropped(names: seq<string>)
    requires DroppedColumn !in names
    ensures Select(names, names) == names
  {
    if |names| > 0 {
      assert names == [names[0]] + names[1..];
      SelectNothingDropped(names[1..]);
    }
  }

  lemma {:induction false} SelectDropsColumn(names: seq<string>)
    ensures DroppedColumn !in Select(names, names)
  {
    if |names| > 0 {
      SelectDropsColumn(names[1..]);
    }
  }

  /** An entry in a kept column survives the selection. */
  lemma {:induction false} SelectKeeps<X>(names: seq<string>, xs: seq<X>, p: nat)
    requires |xs| == |names| && p < |names| && names[p] != DroppedColumn
    ensures xs[p] in Select(names, xs)
  {
    if p > 0 {
      SelectKeeps(names[1..], xs[1..], p - 1);
    }
  }

  predicate NoNull<V>(cells: seq<Option<V>>)
  {
    forall k :: 0 <= k < |cells| ==> cells[k].Some?
  }

  ghost predicate StrictlyIncreasing(s: seq<nat>)
  {
    forall a, b :: 0 <= a < b < |s| ==> s[a] < s[b]
  }

  /** Joined row i keeps no null once the dropped column is gone. */
  predicate Survives<V>(left: Frame<V>, right: Frame<V>, names: seq<string>, i: nat)
    requires i < |left.rows| && Shaped(left) && Shaped(right)
    requires |names| == |left.names| + |right.names|
  {
    NoNull(Select(names, Joined(left, right, i)))
  }

  /** The left rows among the first n whose joined cells, minus the dropped column, hold no null. */
  function Survivors<V>(left: Frame<V>, right: Frame<V>, names: seq<string>, n: nat): (r: seq<nat>)
    requires n <= |left.rows| && Shaped(left) && Shaped(right)
    requires |names| == |left.names| + |right.names|
    ensures |r| <= n && StrictlyIncreasing(r)
    ensures forall k :: 0 <= k < |r| ==> r[k] < n
    ensures forall i :: 0 <= i < n ==> (i in r <==> Survives(left, right, names, i))
  {
    IndicesWhere(SurvivalFlags(left, right, names), n)
  }

  /** For each left row, whether it survives. */
  function SurvivalFlags<V>(left: Frame<V>, right: Frame<V>, names: seq<string>): (flags: seq<bool>)
    requires Shaped(left) && Shaped(right) && |names| == |left.names| + |right.names|
    ensures |flags| == |left.rows|
    ensures forall i {:trigger flags[i]} :: 0 <= i < |left.rows| ==> flags[i] == Survives(left, right, names, i)
  {
    seq(|left.rows|, i requires 0 <= i < |left.rows| => Survives(left, right, names, i))
  }

  /** The positions among the first n whose flag is set, in increasing order. */
  function IndicesWhere(flags: seq<bool>, n: nat): (r: seq<nat>)
    requires n <= |flags|
    ensures |r| <= n && StrictlyIncreasing(r)
    ensures forall k :: 0 <= k < |r| ==> r[k] < n
    ensures forall i :: 0 <= i < n ==> (i in r <==> flags[i])
  {
    if n == 0 then []
    else
      var prev := IndicesWhere(flags, n - 1);
      if flags[n - 1] then AppendGreater(prev, n - 1); prev + [n - 1]
      else prev
  }

  /** Appending an index above every entry keeps the list strictly increasing. */
  lemma AppendGreater(s: seq<nat>, i: nat)
    requires StrictlyIncreasing(s) && forall k :: 0 <= k < |s| ==> s[k] < i
    ensures StrictlyIncreasing(s + [i])
    ensures forall x :: x in s + [i] <==> x in s || x == i
  {
  }

  /** The errors process_fibers raises: dropping a column the joined frame lacks is a KeyError. */
  datatype AlignError = ColumnNotFound(column: string)

  /**
   * process_fibers. Fails when the joined frame has no `f_sensor_2_5` column;
   * otherwise keeps, in fiber-1 order, the fiber-1 rows whose joined cells
   * hold no null once that column is gone.
   */
  function ProcessFibers<V>(fiber1: Frame<V>, fiber2: Frame<V>): (r: Result<Frame<V>, AlignError>)
    requires Shaped(fiber1) && Shaped(fiber2)
    requires Sorted(Times(fiber1)) && Sorted(Times(fiber2))
    ensures r.Err? <==> DroppedColumn !in MergedNames(fiber1.names, fiber2.names)
    ensures r.Ok? ==> && Shaped(r.value)
                      && DroppedColumn !in r.value.names
                      && |r.value.rows| <= |fiber1.rows|
                      && forall k :: 0 <= k < |r.value.rows| ==> NoNull(r.value.rows[k].cells)
  {
    var names := MergedNames(fiber1.names, fiber2.names);
    if DroppedColumn !in names then Err(ColumnNotFound(DroppedColumn))
    else
      var keep := Survivors(fiber1, fiber2, names, |fiber1.rows|);
      SelectDropsColumn(names);
      SurvivingRowsAreClean(fiber1, fiber2, names);
      Ok(Frame(Select(names, names), FusedRows(fiber1, fiber2, names, keep)))
  }

  /** The surviving rows: each keeps its fiber-1 instant and its selected joined cells. */
  function FusedRows<V>(left: Frame<V>, right: Frame<V>, names: seq<string>, keep: seq<nat>): (rows: seq<Row<V>>)
    requires Shaped(left) && Shaped(right) && |names| == |left.names| + |right.names|
    requires forall k :: 0 <= k < |keep| ==> keep[k] < |left.rows|
    ensures |rows| == |keep|
    ensures forall k {:trigger rows[k]} :: 0 <= k < |keep| ==>
              rows[k] == Row(left.rows[keep[k]].time, Select(names, Joined(left, right, keep[k])))
  {
    seq(|keep|, k requires 0 <= k < |keep| => Row(left.rows[keep[k]].time, Select(names, Joined(left, right, keep[k]))))
  }

  /** Every surviving row has one cell per kept column and no null. */
  lemma SurvivingRowsAreClean<V>(left: Frame<V>, right: Frame<V>, names: seq<string>)
    requires Shaped(left) && Shaped(right) && |names| == |left.names| + |right.names|
    ensures var keep := Survivors(left, right, names, |left.rows|);
            var rows := FusedRows(left, right, names, keep);
            && Shaped(Frame(Select(names, names), rows))
            && forall k :: 0 <= k < |rows| ==> NoNull(rows[k].cells)
  {
    var keep := Survivors(left, right, names, |left.rows|);
    var rows := FusedRows(left, right, names, keep);
    forall k | 0 <= k < |rows| ensures NoNull(rows[k].cells) && |rows[k].cells| == |Select(names, names)| {
      var i := keep[k];
      assert i in keep;
      var cells := Joined(left, right, i);
      assert rows[k].cells == Select(names, cells);
      SelectLength(names, cells, names);
    }
  }

  // ---------------------------------------------------------------------------
  // What the fused frame promises

  /** Some fiber-2 column survives the drop, so an unmatched row would carry a null. */
  ghost predicate RightKeepsAColumn(names: seq<string>, leftWidth: nat)
  {
    exists p :: leftWidth <= p < |names| && names[p] != DroppedColumn
  }

  /**
   * The fused rows are fiber-1 rows in their original order: a strictly
   * increasing choice of fiber-1 positions, each row keeping its instant, so
   * the fused instants are sorted too.
   */
  lemma FusedRowsFollowFiber1<V>(fiber1: Frame<V>, fiber2: Frame<V>)
    requires Shaped(fiber1) && Shaped(fiber2)
    requires Sorted(Times(fiber1)) && Sorted(Times(fiber2))
    requires ProcessFibers(fiber1, fiber2).Ok?
    ensures var out := ProcessFibers(fiber1, fiber2).value;
            var keep := Survivors(fiber1, fiber2, MergedNames(fiber1.names, fiber2.names), |fiber1.rows|);
            && |out.rows| == |keep|
            && StrictlyIncreasing(keep)
            && (forall k :: 0 <= k < |keep| ==> keep[k] < |fiber1.rows| && out.rows[k].time == fiber1.rows[keep[k]].time)
            && Sorted(Times(out))
  {
    var out := ProcessFibers(fiber1, fiber2).value;
    var keep := Survivors(fiber1, fiber2, MergedNames(fiber1.names, fiber2.names), |fiber1.rows|);
    FusedFrame(fiber1, fiber2);
    SubsequenceIsSorted(fiber1, out, keep);
  }

  /** Rows picked at increasing positions of a sorted frame, keeping their instants, are sorted. */
  lemma SubsequenceIsSorted<V>(f: Frame<V>, out: Frame<V>, keep: seq<nat>)
    requires Sorted(Times(f)) && StrictlyIncreasing(keep) && |out.rows| == |keep|
    requires forall k :: 0 <= k < |keep| ==> keep[k] < |f.rows| && out.rows[k].time == f.rows[keep[k]].time
    ensures Sorted(Times(out))
  {
    forall a, b | 0 <= a <= b < |out.rows| ensures Times(out)[a] <= Times(out)[b] {
      assert keep[a] <= keep[b];
      assert Times(f)[keep[a]] <= Times(f)[keep[b]];
    }
  }

  /**
   * The instant of each fused row has a match among the fiber-2 rows: one
   * whose instant is nearest to it and at most one millisecond away.
   */
  lemma FusedRowsUseNearest<V>(fiber1: Frame<V>, fiber2: Frame<V>)
    requires Shaped(fiber1) && Shaped(fiber2)
    requires Sorted(Times(fiber1)) && Sorted(Times(fiber2))
    requires DroppedColumn in MergedNames(fiber1.names, fiber2.names)
    requires RightKeepsAColumn(MergedNames(fiber1.names, fiber2.names), |fiber1.names|)
    ensures ProcessFibers(fiber1, fiber2).Ok?
    ensures var ts := Times(ProcessFibers(fiber1, fiber2).value);
            forall k :: 0 <= k < |ts| ==>
              var m := Match(Times(fiber2), ts[k]);
              && m.Some?
              && Nearest(Times(fiber2), ts[k], m.value)
              && Abs(fiber2.rows[m.value].time - ts[k]) <= Tolerance
  {
    var names := MergedNames(fiber1.names, fiber2.names);
    var keep := Survivors(fiber1, fiber2, names, |fiber1.rows|);
    FusedTimesAtSurvivors(fiber1, fiber2);
    MatchedAtSurvivors(fiber1, fiber2, names, keep, Times(ProcessFibers(fiber1, fiber2).value));
  }

  /** The fused instants are those of the surviving fiber-1 rows, in order. */
  lemma FusedTimesAtSurvivors<V>(fiber1: Frame<V>, fiber2: Frame<V>)
    requires Shaped(fiber1) && Shaped(fiber2)
    requires Sorted(Times(fiber1)) && Sorted(Times(fiber2))
    requires DroppedColumn in MergedNames(fiber1.names, fiber2.names)
    ensures ProcessFibers(fiber1, fiber2).Ok?
    ensures var names := MergedNames(fiber1.names, fiber2.names);
            var keep := Survivors(fiber1, fiber2, names, |fiber1.rows|);
            var times := Times(ProcessFibers(fiber1, fiber2).value);
            && |times| == |keep|
            && forall k :: 0 <= k < |keep| ==>
                 && keep[k] < |fiber1.rows| && Survives(fiber1, fiber2, names, keep[k])
                 && times[k] == fiber1.rows[keep[k]].time
  {
    var names := MergedNames(fiber1.names, fiber2.names);
    var keep := Survivors(fiber1, fiber2, names, |fiber1.rows|);
    FusedRowsFollowFiber1(fiber1, fiber2);
    forall k | 0 <= k < |keep| ensures Survives(fiber1, fiber2, names, keep[k]) {
      assert keep[k] in keep;
    }
  }

  /** Instants of surviving fiber-1 rows each have a nearest fiber-2 match within the tolerance. */
  lemma MatchedAtSurvivors<V>(fiber1: Frame<V>, fiber2: Frame<V>, names: seq<string>, keep: seq<nat>, times: seq<int>)
    requires Shaped(fiber1) && Shaped(fiber2) && Sorted(Times(fiber2))
    requires |names| == |fiber1.names| + |fiber2.names| && RightKeepsAColumn(names, |fiber1.names|)
    requires |times| == |keep|
    requires forall k :: 0 <= k < |keep| ==>
               && keep[k] < |fiber1.rows| && Survives(fiber1, fiber2, names, keep[k])
               && times[k] == fiber1.rows[keep[k]].time
    ensures forall k :: 0 <= k < |times| ==>
              var m := Match(Times(fiber2), times[k]);
              && m.Some?
              && Nearest(Times(fiber2), times[k], m.value)
              && Abs(fiber2.rows[m.value].time - times[k]) <= Tolerance
  {
    forall k | 0 <= k < |times|
      ensures var m := Match(Times(fiber2), times[k]);
              && m.Some?
              && Nearest(Times(fiber2), times[k], m.value)
              && Abs(fiber2.rows[m.value].time - times[k]) <= Tolerance
    {
      SurvivorIsMatched(fiber1, fiber2, names, keep[k]);
    }
  }

  /**
   * Each fused row keeps the fiber-1 row's instant; its cells are the fiber-1
   * row's followed by those of the matched fiber-2 row, minus the dropped column.
   */
  lemma FusedRowCells<V>(fiber1: Frame<V>, fiber2: Frame<V>)
    requires Shaped(fiber1) && Shaped(fiber2)
    requires Sorted(Times(fiber1)) && Sorted(Times(fiber2))
    requires DroppedColumn in MergedNames(fiber1.names, fiber2.names)
    requires RightKeepsAColumn(MergedNames(fiber1.names, fiber2.names), |fiber1.names|)
    ensures ProcessFibers(fiber1, fiber2).Ok?
    ensures var names := MergedNames(fiber1.names, fiber2.names);
            var keep := Survivors(fiber1, fiber2, names, |fiber1.rows|);
            var rows := ProcessFibers(fiber1, fiber2).value.rows;
            && |rows| == |keep|
            && forall k :: 0 <= k < |keep| ==>
                 var i := keep[k];
                 var m := Match(Times(fiber2), fiber1.rows[i].time);
                 && m.Some?
                 && rows[k] == Row(fiber1.rows[i].time, Select(names, fiber1.rows[i].cells + fiber2.rows[m.value].cells))
  {
    var names := MergedNames(fiber1.names, fiber2.names);
    var keep := Survivors(fiber1, fiber2, names, |fiber1.rows|);
    var rows := ProcessFibers(fiber1, fiber2).value.rows;
    FusedFrame(fiber1, fiber2);
    forall k | 0 <= k < |keep|
      ensures var i := keep[k];
              var m := Match(Times(fiber2), fiber1.rows[i].time);
              && m.Some?
              && rows[k] == Row(fiber1.rows[i].time, Select(names, fiber1.rows[i].cells + fiber2.rows[m.value].cells))
    {
      assert keep[k] in keep;
      SurvivorIsMatched(fiber1, fiber2, names, keep[k]);
    }
  }

  /** A surviving row was matched to a nearest fiber-2 row within the tolerance. */
  lemma SurvivorIsMatched<V>(left: Frame<V>, right: Frame<V>, names: seq<string>, i: nat)
    requires Shaped(left) && Shaped(right) && Sorted(Times(right))
    requires |names| == |left.names| + |right.names| && RightKeepsAColumn(names, |left.names|)
    requires i < |left.rows| && Survives(left, right, names, i)
    ensures var t := left.rows[i].time;
            && Match(Times(right), t).Some?
            && var j := Match(Times(right), t).value;
               && Nearest(Times(right), t, j)
               && Abs(right.rows[j].time - t) <= Tolerance
               && Joined(left, right, i) == left.rows[i].cells + right.rows[j].cells
  {
    var t := left.rows[i].time;
    if Match(Times(right), t).None? {
      UnmatchedCarriesNull(left, right, names, i);
    }
    MatchIsNearestWithinTolerance(Times(right), t);
  }

  /** The fused frame's rows are the surviving joined rows. */
  lemma FusedFrame<V>(fiber1: Frame<V>, fiber2: Frame<V>)
    requires Shaped(fiber1) && Shaped(fiber2)
    requires Sorted(Times(fiber1)) && Sorted(Times(fiber2))
    requires ProcessFibers(fiber1, fiber2).Ok?
    ensures var names := MergedNames(fiber1.names, fiber2.names);
            ProcessFibers(fiber1, fiber2).value.rows
            == FusedRows(fiber1, fiber2, names, Survivors(fiber1, fiber2, names, |fiber1.rows|))
  {
  }

  /** The fused frame's columns are the joined frame's, minus the dropped one. */
  lemma FusedNames<V>(fiber1: Frame<V>, fiber2: Frame<V>)
    requires Shaped(fiber1) && Shaped(fiber2)
    requires Sorted(Times(fiber1)) && Sorted(Times(fiber2))
    requires ProcessFibers(fiber1, fiber2).Ok?
    ensures var names := MergedNames(fiber1.names, fiber2.names);
            ProcessFibers(fiber1, fiber2).value.names == Select(names, names)
  {
  }

  /**
   * For fiber frames whose value columns are among `sensor_1` .. `sensor_5`:
   * the fusion fails exactly when fiber 2 lacks `sensor_5`, and otherwise its
   * columns are fiber 1's renamed to `f_sensor_1_<k>`, then fiber 2's renamed
   * to `f_sensor_2_<k>` without `f_sensor_2_5`.
   */
  lemma SensorColumnsRenamed<V>(fiber1: Frame<V>, fiber2: Frame<V>)
    requires Shaped(fiber1) && Shaped(fiber2)
    requires Sorted(Times(fiber1)) && Sorted(Times(fiber2))
    requires OnlySensorChannels(fiber1.names) && OnlySensorChannels(fiber2.names)
    ensures ProcessFibers(fiber1, fiber2).Err? <==> "sensor_5" !in fiber2.names
    ensures ProcessFibers(fiber1, fiber2).Ok? ==>
            var renamed2 := Rename(fiber2.names, Fiber2Names);
            ProcessFibers(fiber1, fiber2).value.names
            == Rename(fiber1.names, Fiber1Names) + Select(renamed2, renamed2)
  {
    var renamed1, renamed2 := Rename(fiber1.names, Fiber1Names), Rename(fiber2.names, Fiber2Names);
    RenamedSidesDisjoint(fiber1.names, fiber2.names);
    if ProcessFibers(fiber1, fiber2).Ok? {
      FusedNames(fiber1, fiber2);
      SelectAppend(renamed1, renamed2);
      SelectNothingDropped(renamed1);
    }
  }

  /** Two five-sensor frames fuse into the five fiber-1 columns and four fiber-2 columns. */
  lemma FiveSensorColumns<V>(fiber1: Frame<V>, fiber2: Frame<V>)
    requires Shaped(fiber1) && Shaped(fiber2)
    requires Sorted(Times(fiber1)) && Sorted(Times(fiber2))
    requires fiber1.names == FiveSensors && fiber2.names == FiveSensors
    ensures ProcessFibers(fiber1, fiber2).Ok?
    ensures ProcessFibers(fiber1, fiber2).value.names == FusedFiber1Columns + FusedFiber2Columns
  {
    FiveSensorsRenamed();
    SensorColumnsRenamed(fiber1, fiber2);
  }

  lemma FiveSensorsRenamed()
    ensures OnlySensorChannels(FiveSensors) && "sensor_5" in FiveSensors
    ensures Rename(FiveSensors, Fiber1Names) == FusedFiber1Columns
    ensures var renamed2 := Rename(FiveSensors, Fiber2Names);
            Select(renamed2, renamed2) == FusedFiber2Columns
  {
    FiveSensorsAreChannels();
    Fiber1FiveRenamed();
    Fiber2FiveRenamed();
    SelectAppend(FusedFiber2Columns, [DroppedColumn]);
    SelectNothingDropped(FusedFiber2Columns);
  }

  lemma FiveSensorsAreChannels()
    ensures OnlySensorChannels(FiveSensors) && "sensor_5" in FiveSensors
  {
    assert FiveSensors[4] == "sensor_5";
  }

  lemma Fiber1FiveRenamed()
    ensures Rename(FiveSensors, Fiber1Names) == FusedFiber1Columns
  {
    RenamedFive(Fiber1Names, FusedFiber1Columns);
  }

  lemma Fiber2FiveRenamed()
    ensures Rename(FiveSensors, Fiber2Names) == FusedFiber2Columns + [DroppedColumn]
  {
    RenamedFive(Fiber2Names, FusedFiber2Columns + [DroppedColumn]);
  }

  /** Renaming the five channels with a map that covers them yields its five images in order. */
  lemma RenamedFive(m: map<string, string>, images: seq<string>)
    requires |images| == 5 && forall i :: 0 <= i < 5 ==> FiveSensors[i] in m && m[FiveSensors[i]] == images[i]
    ensures Rename(FiveSensors, m) == images
  {
  }

  /** An unmatched fiber-1 row has a null in a surviving fiber-2 column. */
  lemma UnmatchedCarriesNull<V>(fiber1: Frame<V>, fiber2: Frame<V>, names: seq<string>, i: nat)
    requires Shaped(fiber1) && Shaped(fiber2) && |names| == |fiber1.names| + |fiber2.names|
    requires i < |fiber1.rows| && Match(Times(fiber2), fiber1.rows[i].time).None?
    requires RightKeepsAColumn(names, |fiber1.names|)
    ensures !Survives(fiber1, fiber2, names, i)
  {
    var p :| |fiber1.names| <= p < |names| && names[p] != DroppedColumn;
    var cells := Joined(fiber1, fiber2, i);
    assert cells[p].None?;
    SelectKeeps(names, cells, p);
  }

  /**
   * A fiber-1 row with no fiber-2 row within the tolerance is not among the
   * surviving rows.
   */
  lemma UnmatchedRowsDropped<V>(fiber1: Frame<V>, fiber2: Frame<V>, i: nat)
    requires Shaped(fiber1) && Shaped(fiber2)
    requires Sorted(Times(fiber1)) && Sorted(Times(fiber2))
    requires i < |fiber1.rows|
    requires RightKeepsAColumn(MergedNames(fiber1.names, fiber2.names), |fiber1.names|)
    requires forall j :: 0 <= j < |fiber2.rows| ==> Abs(fiber2.rows[j].time - fiber1.rows[i].time) > Tolerance
    ensures i !in Survivors(fiber1, fiber2, MergedNames(fiber1.names, fiber2.names), |fiber1.rows|)
  {
    var t := fiber1.rows[i].time;
    MatchIsNearestWithinTolerance(Times(fiber2), t);
    UnmatchedCarriesNull(fiber1, fiber2, MergedNames(fiber1.names, fiber2.names), i);
  }

  /**
   * Left instants 0, 5 and 10 ms against right instants 1, 4 and 9 ms: every
   * left row is matched, since a difference of exactly 1 ms is within the
   * tolerance.
   */
  lemma BoundaryMatches()
    ensures Match([1_000_000, 4_000_000, 9_000_000], 0) == Some(0)
    ensures Match([1_000_000, 4_000_000, 9_000_000], 5_000_000) == Some(1)
    ensures Match([1_000_000, 4_000_000, 9_000_000], 10_000_000) == Some(2)
  {
    var rt := [1_000_000, 4_000_000, 9_000_000];
    assert LastAtOrBefore(rt, 0, 3) == None;
    assert FirstAtOrAfter(rt, 0, 0) == Some(0);
    assert LastAtOrBefore(rt, 5_000_000, 3) == Some(1);
    assert FirstAtOrAfter(rt, 5_000_000, 0) == Some(2);
    assert LastAtOrBefore(rt, 10_000_000, 3) == Some(2);
    assert FirstAtOrAfter(rt, 10_000_000, 0) == None;
  }
}
