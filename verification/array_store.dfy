/**
 * The reader that turns groups of the array store into tables: fiber groups
 * (`fibers_<n>`), vibration groups (`vibration_<n>`) and arbitrary groups with
 * an optional `__time_UTC__s__` timestamp dataset. Opening the store is not
 * modelled: the store is an immutable value supplied by the caller.
 * Loaders never look at the cells, so they are generic in the cell type T.
 */
module ArrayStore {
  import opened Common
  import opened Strings

  /** A group: its dataset keys in stored order and the arrays they name. */
  datatype Group<T> = Group(keys: seq<string>, arrays: map<string, seq<T>>) {
    ghost predicate Valid()
    {
      Distinct(keys) && forall k :: k in arrays <==> k in keys
    }
  }

  /** The store: its group names in stored order and the groups they name. */
  datatype Store<T> = Store(names: seq<string>, groups: map<string, Group<T>>) {
    ghost predicate Valid()
    {
      && Distinct(names)
      && (forall n :: n in groups <==> n in names)
      && (forall n :: n in groups ==> groups[n].Valid())
    }
  }

  /** A named column of a table and a table as an ordered list of columns. */
  datatype Column<T> = Column(name: string, cells: seq<T>)
  type Table<T> = seq<Column<T>>

  function Names<T>(t: Table<T>): (r: seq<string>)
    ensures |r| == |t| && forall i {:trigger r[i]} :: 0 <= i < |t| ==> r[i] == t[i].name
  {
    seq(|t|, i requires 0 <= i < |t| => t[i].name)
  }

  /** The names of a non-empty table: its first column's, then the rest's. */
  lemma NamesHead<T>(t: Table<T>)
    requires |t| >= 1
    ensures Names(t) == [t[0].name] + Names(t[1..])
  {
  }

  lemma NamesAppend<T>(a: Table<T>, b: Table<T>)
    ensures Names(a + b) == Names(a) + Names(b)
  {
  }

  /** Dropping the first column of a table with distinct names. */
  lemma NamesCons<T>(t: Table<T>)
    requires |t| >= 1
    ensures Names(t) == [t[0].name] + Names(t[1..])
    ensures Distinct(Names(t)) ==> Distinct(Names(t[1..])) && t[0].name !in Names(t[1..])
  {
    var rest := t[1..];
    NamesHead(t);
    if Distinct(Names(t)) {
      forall i, j | 0 <= i < j < |rest| ensures Names(rest)[i] != Names(rest)[j] {
        assert Names(t)[i + 1] != Names(t)[j + 1];
      }
      forall i | 0 <= i < |rest| ensures Names(rest)[i] != t[0].name {
        assert Names(t)[i + 1] != Names(t)[0];
      }
    }
  }

  /** Every column holds as many cells as the first: the shape a data frame has. */
  predicate Rectangular<T>(t: Table<T>)
  {
    forall i :: 0 <= i < |t| ==> |t[i].cells| == |t[0].cells|
  }

  /** The errors a loader raises; only GroupNotFound is a KeyError, the rest are ValueErrors. */
  datatype LoadError =
    | GroupNotFound(group: string, available: seq<string>)
    | DatasetNotFound(group: string, dataset: string)
    | TimestampOrDataMissing(group: string)
    | LengthMismatch(group: string, dataset: string, timestamps: nat, values: nat)
    | EmptyGroup(group: string)
    | NoDataColumns(group: string)
    | RaggedColumns(group: string)

  // ---------------------------------------------------------------------------
  // Column dictionaries

  /**
   * Storing a column under its name in a Python dict: a name already present
   * keeps its position and takes the new cells, a new name goes last.
   */
  function Put<T>(t: Table<T>, c: Column<T>): Table<T>
  {
    if |t| == 0 then [c]
    else if t[0].name == c.name then [c] + t[1..]
    else [t[0]] + Put(t[1..], c)
  }

  /** `{**t, **cols}`: the columns of cols stored one after the other. */
  function PutAll<T>(t: Table<T>, cols: Table<T>): Table<T>
    decreases |cols|
  {
    if |cols| == 0 then t else PutAll(Put(t, cols[0]), cols[1..])
  }

  lemma {:induction false} PutNames<T>(t: Table<T>, c: Column<T>)
    ensures Names(Put(t, c)) == if c.name in Names(t) then Names(t) else Names(t) + [c.name]
  {
    if |t| == 0 {
      assert Names(Put(t, c)) == [c.name];
    } else {
      NamesHead(t);
      var u := Put(t, c);
      NamesHead(u);
      if t[0].name == c.name {
        assert u[1..] == t[1..];
      } else {
        var rest := Names(t[1..]);
        PutNames(t[1..], c);
        assert u[1..] == Put(t[1..], c);
        assert c.name in Names(t) <==> c.name in rest;
        if c.name !in rest {
          assert [t[0].name] + (rest + [c.name]) == ([t[0].name] + rest) + [c.name];
        }
      }
    }
  }

  lemma {:induction false} PutFresh<T>(t: Table<T>, c: Column<T>)
    requires c.name !in Names(t)
    ensures Put(t, c) == t + [c]
  {
    if |t| > 0 {
      NamesHead(t);
      PutFresh(t[1..], c);
    }
  }

  lemma {:induction false} PutPresent<T>(t: Table<T>, c: Column<T>, k: nat)
    requires k < |t| && t[k].name == c.name && Distinct(Names(t))
    ensures Put(t, c) == t[k := c]
  {
    if k > 0 {
      assert Names(t)[0] != Names(t)[k];
      NamesCons(t);
      PutPresent(t[1..], c, k - 1);
    }
  }

  lemma {:induction false} PutAllKeepsNamesDistinct<T>(t: Table<T>, cols: Table<T>)
    requires Distinct(Names(t))
    ensures Distinct(Names(PutAll(t, cols)))
    decreases |cols|
  {
    if |cols| > 0 {
      PutNames(t, cols[0]);
      PutAllKeepsNamesDistinct(Put(t, cols[0]), cols[1..]);
    }
  }

  lemma {:induction false} PutAllFresh<T>(t: Table<T>, cols: Table<T>)
    requires Distinct(Names(t) + Names(cols))
    ensures PutAll(t, cols) == t + cols
    decreases |cols|
  {
    if |cols| > 0 {
      var c, rest := cols[0], cols[1..];
      FirstNameFresh(t, cols);
      NamesShift(t, cols);
      PutFresh(t, c);
      PutAllFresh(t + [c], rest);
      assert t + [c] + rest == t + cols;
    }
  }

  lemma FirstNameFresh<T>(t: Table<T>, cols: Table<T>)
    requires |cols| >= 1 && Distinct(Names(t) + Names(cols))
    ensures cols[0].name !in Names(t)
  {
    var both := Names(t) + Names(cols);
    forall i | 0 <= i < |t| ensures Names(t)[i] != cols[0].name {
      assert both[i] == Names(t)[i] && both[|t|] == cols[0].name;
    }
  }

  lemma NamesShift<T>(t: Table<T>, cols: Table<T>)
    requires |cols| >= 1
    ensures Names(t + [cols[0]]) + Names(cols[1..]) == Names(t) + Names(cols)
  {
    var c, rest := cols[0], cols[1..];
    NamesAppend(t, [c]);
    assert Names([c]) == [c.name];
    NamesHead(cols);
    assert Names(t) + ([c.name] + Names(rest)) == (Names(t) + [c.name]) + Names(rest);
  }

  // ---------------------------------------------------------------------------
  // Fiber groups

  const TimestampColumn := "timestamp"
  const FiberTimestampKey := "0"

  function FiberGroupName(fiber: int): string
  {
    "fibers_" + IntToString(fiber)
  }

  function SensorKey(sensor: int): string
  {
    IntToString(sensor)
  }

  function SensorColumnName(sensor: int): string
  {
    "sensor_" + IntToString(sensor)
  }

  lemma SensorColumnNameInjective(a: int, b: int)
    requires SensorColumnName(a) == SensorColumnName(b)
    ensures a == b
  {
    assert IntToString(a) == SensorColumnName(a)[7..] == SensorColumnName(b)[7..] == IntToString(b);
    IntToStringInjective(a, b);
  }

  /** The sensors asked for: one sensor number or a list of them. */
  datatype SensorSelection = One(sensor: int) | Many(sensors: seq<int>)

  /** A bare sensor number stands for the one-element list. */
  function Requested(sel: SensorSelection): seq<int>
  {
    match sel
    case One(s) => [s]
    case Many(ss) => ss
  }

  /** The column a fiber table holds for one sensor. */
  function SensorColumn<T>(g: Group<T>, sensor: int): Column<T>
    requires SensorKey(sensor) in g.arrays
  {
    Column(SensorColumnName(sensor), g.arrays[SensorKey(sensor)])
  }

  function SensorColumns<T>(g: Group<T>, sensors: seq<int>): (r: Table<T>)
    requires forall s :: s in sensors ==> SensorKey(s) in g.arrays
    ensures |r| == |sensors|
    ensures forall i {:trigger r[i]} :: 0 <= i < |sensors| ==> r[i] == SensorColumn(g, sensors[i])
  {
    seq(|sensors|, i requires 0 <= i < |sensors| => SensorColumn(g, sensors[i]))
  }

  /**
   * The sensors of a request in order, each at its first occurrence:
   * `seen` followed by those of `rest` not seen before.
   */
  function FirstOccurrences(seen: seq<int>, rest: seq<int>): seq<int>
    decreases |rest|
  {
    if |rest| == 0 then seen
    else FirstOccurrences(if rest[0] in seen then seen else seen + [rest[0]], rest[1..])
  }

  /** A request without repetitions keeps its order exactly. */
  lemma {:induction false} FirstOccurrencesOfDistinct(seen: seq<int>, rest: seq<int>)
    requires Distinct(seen + rest)
    ensures FirstOccurrences(seen, rest) == seen + rest
    decreases |rest|
  {
    if |rest| > 0 {
      assert rest[0] !in seen by {
        forall i | 0 <= i < |seen| ensures seen[i] != rest[0] {
          assert (seen + rest)[i] == seen[i] && (seen + rest)[|seen|] == rest[0];
        }
      }
      assert seen + rest == (seen + [rest[0]]) + rest[1..];
      FirstOccurrencesOfDistinct(seen + [rest[0]], rest[1..]);
    }
  }

  /**
   * The loop over the requested sensors: each must have a dataset whose length
   * is that of the timestamps; the first that does not raises.
   */
  function LoadSensors<T>(g: Group<T>, group: string, n: nat, sensors: seq<int>, acc: Table<T>)
    : Result<Table<T>, LoadError>
    decreases |sensors|
  {
    if |sensors| == 0 then Ok(acc)
    else
      var key := SensorKey(sensors[0]);
      if key !in g.arrays then Err(DatasetNotFound(group, key))
      else if |g.arrays[key]| != n then Err(LengthMismatch(group, key, n, |g.arrays[key]|))
      else LoadSensors(g, group, n, sensors[1..], Put(acc, Column(SensorColumnName(sensors[0]), g.arrays[key])))
  }

  /** load_fiber_data as a function of the store. */
  function FiberTable<T>(store: Store<T>, fiber: int, sel: SensorSelection): Result<Table<T>, LoadError>
  {
    var name := FiberGroupName(fiber);
    if name !in store.groups then Err(GroupNotFound(name, store.names))
    else
      var g := store.groups[name];
      if FiberTimestampKey !in g.arrays then Err(DatasetNotFound(name, FiberTimestampKey))
      else
        var ts := g.arrays[FiberTimestampKey];
        LoadSensors(g, name, |ts|, Requested(sel), [Column(TimestampColumn, ts)])
  }

  /** load_fiber_data: the loop that fills the column dictionary one sensor at a time. */
  method LoadFiberData<T>(store: Store<T>, fiber: int, sel: SensorSelection)
    returns (r: Result<Table<T>, LoadError>)
    ensures r == FiberTable(store, fiber, sel)
  {
    var sensors := Requested(sel);
    var name := FiberGroupName(fiber);
    if name !in store.groups {
      return Err(GroupNotFound(name, store.names));
    }
    var g := store.groups[name];
    if FiberTimestampKey !in g.arrays {
      return Err(DatasetNotFound(name, FiberTimestampKey));
    }
    var timestamps := g.arrays[FiberTimestampKey];
    ghost var start: Table<T> := [Column(TimestampColumn, timestamps)];
    var data: Table<T> := [Column(TimestampColumn, timestamps)];
    var i := 0;
    while i < |sensors|
      invariant 0 <= i <= |sensors|
      invariant LoadSensors(g, name, |timestamps|, sensors, start)
             == LoadSensors(g, name, |timestamps|, sensors[i..], data)
    {
      assert sensors[i..][1..] == sensors[i + 1..];
      var key := SensorKey(sensors[i]);
      if key !in g.arrays {
        return Err(DatasetNotFound(name, key));
      }
      var values := g.arrays[key];
      if |values| != |timestamps| {
        return Err(LengthMismatch(name, key, |timestamps|, |values|));
      }
      data := Put(data, Column(SensorColumnName(sensors[i]), values));
      i := i + 1;
    }
    r := Ok(data);
  }

  /** Sensor i of the request is loadable: its dataset exists and has n cells. */
  ghost predicate SensorLoadable<T>(g: Group<T>, n: nat, sensor: int)
  {
    SensorKey(sensor) in g.arrays && |g.arrays[SensorKey(sensor)]| == n
  }

  lemma {:induction false} LoadSensorsOk<T>(g: Group<T>, group: string, n: nat, sensors: seq<int>, acc: Table<T>)
    ensures LoadSensors(g, group, n, sensors, acc).Ok?
        <==> forall i :: 0 <= i < |sensors| ==> SensorLoadable(g, n, sensors[i])
    decreases |sensors|
  {
    if |sensors| > 0 {
      var key := SensorKey(sensors[0]);
      if key in g.arrays && |g.arrays[key]| == n {
        LoadSensorsOk(g, group, n, sensors[1..], Put(acc, Column(SensorColumnName(sensors[0]), g.arrays[key])));
        assert forall i :: 1 <= i < |sensors| ==> sensors[i] == sensors[1..][i - 1];
      }
    }
  }

  lemma {:induction false} LoadSensorsFirstError<T>(
    g: Group<T>, group: string, n: nat, sensors: seq<int>, acc: Table<T>, k: nat)
    requires k < |sensors| && !SensorLoadable(g, n, sensors[k])
    requires forall i :: 0 <= i < k ==> SensorLoadable(g, n, sensors[i])
    ensures LoadSensors(g, group, n, sensors, acc)
         == (var key := SensorKey(sensors[k]);
             if key !in g.arrays then Err(DatasetNotFound(group, key))
             else Err(LengthMismatch(group, key, n, |g.arrays[key]|)))
    decreases k
  {
    if k > 0 {
      var key := SensorKey(sensors[0]);
      assert SensorLoadable(g, n, sensors[0]);
      LoadSensorsFirstError(g, group, n, sensors[1..], Put(acc, Column(SensorColumnName(sensors[0]), g.arrays[key])), k - 1);
    }
  }

  /** The table built so far: the timestamp column, then the columns of the sensors seen. */
  function FiberColumns<T>(ts: seq<T>, g: Group<T>, seen: seq<int>): (r: Table<T>)
    requires forall s :: s in seen ==> SensorKey(s) in g.arrays
    ensures |r| == |seen| + 1 && r[0] == Column(TimestampColumn, ts)
    ensures forall i {:trigger r[i]} :: 1 <= i < |r| ==> r[i] == SensorColumn(g, seen[i - 1])
  {
    [Column(TimestampColumn, ts)] + SensorColumns(g, seen)
  }

  /** The timestamp column followed by sensor columns has distinct names. */
  lemma FiberNamesDistinct<T>(ts: seq<T>, g: Group<T>, seen: seq<int>)
    requires Distinct(seen)
    requires forall s :: s in seen ==> SensorKey(s) in g.arrays
    ensures Distinct(Names(FiberColumns(ts, g, seen)))
  {
    var t := FiberColumns(ts, g, seen);
    forall i, j | 0 <= i < j < |t| ensures t[i].name != t[j].name {
      assert t[j].name == SensorColumnName(seen[j - 1]);
      if i == 0 {
        assert t[j].name[0] == 's';
      } else if t[i].name == t[j].name {
        SensorColumnNameInjective(seen[i - 1], seen[j - 1]);
      }
    }
  }

  /** Storing a sensor seen before changes nothing. */
  lemma PutSeenSensor<T>(ts: seq<T>, g: Group<T>, seen: seq<int>, s: int)
    requires Distinct(seen) && forall x :: x in seen ==> SensorKey(x) in g.arrays
    requires s in seen
    ensures Put(FiberColumns(ts, g, seen), SensorColumn(g, s)) == FiberColumns(ts, g, seen)
  {
    var acc := FiberColumns(ts, g, seen);
    FiberNamesDistinct(ts, g, seen);
    var k :| 0 <= k < |seen| && seen[k] == s;
    assert acc[k + 1] == SensorColumn(g, s);
    PutPresent(acc, SensorColumn(g, s), k + 1);
    UpdateSame(acc, k + 1, SensorColumn(g, s));
  }

  lemma UpdateSame<X>(s: seq<X>, k: nat, x: X)
    requires k < |s| && s[k] == x
    ensures s[k := x] == s
  {
  }

  /** Storing a new sensor appends its column. */
  lemma PutNewSensor<T>(ts: seq<T>, g: Group<T>, seen: seq<int>, s: int)
    requires Distinct(seen) && forall x :: x in seen ==> SensorKey(x) in g.arrays
    requires s !in seen && SensorKey(s) in g.arrays
    ensures Distinct(seen + [s])
    ensures Put(FiberColumns(ts, g, seen), SensorColumn(g, s)) == FiberColumns(ts, g, seen + [s])
  {
    var acc := FiberColumns(ts, g, seen);
    var c := SensorColumn(g, s);
    assert c.name !in Names(acc) by {
      forall i | 0 <= i < |acc| ensures acc[i].name != c.name {
        if i == 0 {
          assert c.name[0] == 's';
        } else if acc[i].name == c.name {
          SensorColumnNameInjective(seen[i - 1], s);
        }
      }
    }
    PutFresh(acc, c);
    assert acc + [c] == FiberColumns(ts, g, seen + [s]);
    forall i, j | 0 <= i < j < |seen + [s]| ensures (seen + [s])[i] != (seen + [s])[j] {
      if j == |seen| { assert seen[i] in seen; }
    }
  }

  lemma {:induction false} LoadSensorsShape<T>(
    g: Group<T>, group: string, n: nat, ts: seq<T>, seen: seq<int>, rest: seq<int>)
    requires Distinct(seen)
    requires forall s :: s in seen ==> SensorKey(s) in g.arrays
    requires forall i :: 0 <= i < |rest| ==> SensorLoadable(g, n, rest[i])
    ensures forall s :: s in FirstOccurrences(seen, rest) ==> SensorKey(s) in g.arrays
    ensures LoadSensors(g, group, n, rest, FiberColumns(ts, g, seen))
         == Ok(FiberColumns(ts, g, FirstOccurrences(seen, rest)))
    decreases |rest|
  {
    if |rest| > 0 {
      var s := rest[0];
      assert SensorLoadable(g, n, s);
      var acc := FiberColumns(ts, g, seen);
      assert LoadSensors(g, group, n, rest, acc)
          == LoadSensors(g, group, n, rest[1..], Put(acc, SensorColumn(g, s)));
      var seen' := if s in seen then seen else seen + [s];
      if s in seen {
        PutSeenSensor(ts, g, seen, s);
      } else {
        PutNewSensor(ts, g, seen, s);
      }
      assert forall i :: 0 <= i < |rest[1..]| ==> SensorLoadable(g, n, rest[1..][i]) by {
        forall i | 0 <= i < |rest[1..]| ensures SensorLoadable(g, n, rest[1..][i]) {
          assert rest[1..][i] == rest[i + 1];
        }
      }
      LoadSensorsShape(g, group, n, ts, seen', rest[1..]);
    }
  }

  /**
   * load_fiber_data succeeds exactly when the group, its timestamp dataset and
   * every requested sensor dataset exist and each sensor has as many values as
   * there are timestamps.
   */
  lemma FiberTableSucceeds<T>(store: Store<T>, fiber: int, sel: SensorSelection)
    ensures FiberTable(store, fiber, sel).Ok?
        <==> (var name := FiberGroupName(fiber);
              && name in store.groups
              && FiberTimestampKey in store.groups[name].arrays
              && var g := store.groups[name];
                 forall s :: s in Requested(sel) ==> SensorLoadable(g, |g.arrays[FiberTimestampKey]|, s))
  {
    var name := FiberGroupName(fiber);
    if name in store.groups && FiberTimestampKey in store.groups[name].arrays {
      var g := store.groups[name];
      var ts := g.arrays[FiberTimestampKey];
      LoadSensorsOk(g, name, |ts|, Requested(sel), [Column(TimestampColumn, ts)]);
    }
  }

  /**
   * The error load_fiber_data raises: the missing group (listing the store's
   * groups), the missing timestamp dataset, or the first requested sensor whose
   * dataset is missing or has the wrong length.
   */
  lemma FiberTableErrors<T>(store: Store<T>, fiber: int, sel: SensorSelection)
    ensures var name := FiberGroupName(fiber);
            && (name !in store.groups <==> FiberTable(store, fiber, sel) == Err(GroupNotFound(name, store.names)))
            && (name in store.groups && FiberTimestampKey !in store.groups[name].arrays
                <==> FiberTable(store, fiber, sel) == Err(DatasetNotFound(name, FiberTimestampKey)))
    ensures forall k :: 0 <= k < |Requested(sel)| ==>
            var name := FiberGroupName(fiber);
            var ss := Requested(sel);
            name in store.groups && FiberTimestampKey in store.groups[name].arrays ==>
            var g := store.groups[name];
            var n := |g.arrays[FiberTimestampKey]|;
            !SensorLoadable(g, n, ss[k]) && (forall i :: 0 <= i < k ==> SensorLoadable(g, n, ss[i])) ==>
            FiberTable(store, fiber, sel)
            == if SensorKey(ss[k]) !in g.arrays then Err(DatasetNotFound(name, SensorKey(ss[k])))
               else Err(LengthMismatch(name, SensorKey(ss[k]), n, |g.arrays[SensorKey(ss[k])]|))
  {
    var name := FiberGroupName(fiber);
    var ss := Requested(sel);
    if name in store.groups && FiberTimestampKey in store.groups[name].arrays {
      var g := store.groups[name];
      var ts := g.arrays[FiberTimestampKey];
      var acc := [Column(TimestampColumn, ts)];
      assert FiberTable(store, fiber, sel) == LoadSensors(g, name, |ts|, ss, acc);
      var r := FiberTable(store, fiber, sel);
      assert !r.Err? || !r.error.GroupNotFound? by {
        if r.Err? {
          LoadSensorsNeverGroupNotFound(g, name, |ts|, ss, acc);
        }
      }
      assert r != Err(DatasetNotFound(name, FiberTimestampKey)) by {
        if r.Err? && r.error.DatasetNotFound? {
          LoadSensorsMissingKeyIsRequested(g, name, |ts|, ss, acc);
        }
      }
      forall k | 0 <= k < |ss| && !SensorLoadable(g, |ts|, ss[k]) && (forall i :: 0 <= i < k ==> SensorLoadable(g, |ts|, ss[i]))
        ensures r == if SensorKey(ss[k]) !in g.arrays then Err(DatasetNotFound(name, SensorKey(ss[k])))
                     else Err(LengthMismatch(name, SensorKey(ss[k]), |ts|, |g.arrays[SensorKey(ss[k])]|))
      {
        LoadSensorsFirstError(g, name, |ts|, ss, acc, k);
      }
    }
  }

  lemma {:induction false} LoadSensorsNeverGroupNotFound<T>(
    g: Group<T>, group: string, n: nat, sensors: seq<int>, acc: Table<T>)
    ensures var r := LoadSensors(g, group, n, sensors, acc); r.Err? ==> !r.error.GroupNotFound?
    decreases |sensors|
  {
    if |sensors| > 0 {
      var key := SensorKey(sensors[0]);
      if key in g.arrays && |g.arrays[key]| == n {
        LoadSensorsNeverGroupNotFound(g, group, n, sensors[1..], Put(acc, Column(SensorColumnName(sensors[0]), g.arrays[key])));
      }
    }
  }

  lemma {:induction false} LoadSensorsMissingKeyIsRequested<T>(
    g: Group<T>, group: string, n: nat, sensors: seq<int>, acc: Table<T>)
    ensures var r := LoadSensors(g, group, n, sensors, acc);
            r.Err? && r.error.DatasetNotFound? ==> r.error.dataset !in g.arrays
    decreases |sensors|
  {
    if |sensors| > 0 {
      var key := SensorKey(sensors[0]);
      if key in g.arrays && |g.arrays[key]| == n {
        LoadSensorsMissingKeyIsRequested(g, group, n, sensors[1..], Put(acc, Column(SensorColumnName(sensors[0]), g.arrays[key])));
      }
    }
  }

  /**
   * On success the table is the timestamp column followed by one column per
   * requested sensor, in request order (a repeated sensor at its first
   * occurrence), each holding that sensor's dataset, all as long as the
   * timestamps.
   */
  lemma FiberTableShape<T>(store: Store<T>, fiber: int, sel: SensorSelection)
    requires FiberTable(store, fiber, sel).Ok?
    ensures var name := FiberGroupName(fiber);
            name in store.groups && FiberTimestampKey in store.groups[name].arrays &&
            var g := store.groups[name];
            var ts := g.arrays[FiberTimestampKey];
            var t := FiberTable(store, fiber, sel).value;
            && (forall s :: s in FirstOccurrences([], Requested(sel)) ==> SensorKey(s) in g.arrays)
            && t == FiberColumns(ts, g, FirstOccurrences([], Requested(sel)))
            && (forall s :: s in Requested(sel) ==> SensorKey(s) in g.arrays)
            && (Distinct(Requested(sel)) ==> t == FiberColumns(ts, g, Requested(sel)))
            && (forall i :: 0 <= i < |t| ==> |t[i].cells| == |ts|)
            && Distinct(Names(t))
  {
    FiberTableSucceeds(store, fiber, sel);
    var name := FiberGroupName(fiber);
    var g := store.groups[name];
    var ts := g.arrays[FiberTimestampKey];
    var ss := Requested(sel);
    assert forall i :: 0 <= i < |ss| ==> SensorLoadable(g, |ts|, ss[i]) by {
      forall i | 0 <= i < |ss| ensures SensorLoadable(g, |ts|, ss[i]) {
        assert ss[i] in ss;
      }
    }
    assert FiberColumns(ts, g, []) == [Column(TimestampColumn, ts)];
    assert FiberTable(store, fiber, sel) == LoadSensors(g, name, |ts|, ss, FiberColumns(ts, g, []));
    LoadSensorsShape(g, name, |ts|, ts, [], ss);
    var d := FirstOccurrences([], ss);
    LoadSensorsShapeLoadable(g, |ts|, [], ss);
    FiberNamesDistinct(ts, g, d);
    FiberColumnsLengths(ts, g, d);
    if Distinct(ss) {
      assert [] + ss == ss;
      FirstOccurrencesOfDistinct([], ss);
    }
  }

  /** With every sensor as long as the timestamps, so is every column. */
  lemma FiberColumnsLengths<T>(ts: seq<T>, g: Group<T>, seen: seq<int>)
    requires forall s :: s in seen ==> SensorKey(s) in g.arrays && |g.arrays[SensorKey(s)]| == |ts|
    ensures forall i :: 0 <= i < |FiberColumns(ts, g, seen)| ==> |FiberColumns(ts, g, seen)[i].cells| == |ts|
  {
    var t := FiberColumns(ts, g, seen);
    forall i | 1 <= i < |t| ensures |t[i].cells| == |ts| {
      assert seen[i - 1] in seen;
    }
  }

  /** What FirstOccurrences keeps is taken from seen and rest, and stays distinct. */
  lemma {:induction false} LoadSensorsShapeLoadable<T>(g: Group<T>, n: nat, seen: seq<int>, rest: seq<int>)
    requires Distinct(seen)
    requires forall s :: s in seen ==> SensorLoadable(g, n, s)
    requires forall i :: 0 <= i < |rest| ==> SensorLoadable(g, n, rest[i])
    ensures Distinct(FirstOccurrences(seen, rest))
    ensures forall s :: s in FirstOccurrences(seen, rest) ==> SensorLoadable(g, n, s)
    decreases |rest|
  {
    if |rest| > 0 {
      var seen' := if rest[0] in seen then seen else seen + [rest[0]];
      assert Distinct(seen') by {
        forall i, j | 0 <= i < j < |seen'| ensures seen'[i] != seen'[j] {
          if j == |seen| { assert seen[i] in seen; }
        }
      }
      LoadSensorsShapeLoadable(g, n, seen', rest[1..]);
    }
  }

  /** A bare sensor number loads exactly what the one-element list loads. */
  lemma OneSensorIsList<T>(store: Store<T>, fiber: int, sensor: int)
    ensures FiberTable(store, fiber, One(sensor)) == FiberTable(store, fiber, Many([sensor]))
  {
  }

  // ---------------------------------------------------------------------------
  // Vibration groups

  const VibrationTimestampKey := "Timestamp"
  const VibrationDataKey := "Data"
  const DataColumn := "data"

  function VibrationGroupName(vibration: int): string
  {
    "vibration_" + IntToString(vibration)
  }

  /**
   * load_vibration_data: both datasets must exist and have equal lengths; the
   * table is then exactly the two arrays, unchanged, as `timestamp` and `data`.
   */
  function VibrationTable<T>(store: Store<T>, vibration: int): (r: Result<Table<T>, LoadError>)
    ensures var name := VibrationGroupName(vibration);
            && (r == Err(GroupNotFound(name, store.names)) <==> name !in store.groups)
            && (r == Err(TimestampOrDataMissing(name))
                <==> name in store.groups
                     && (VibrationTimestampKey !in store.groups[name].arrays
                         || VibrationDataKey !in store.groups[name].arrays))
    ensures (r.Err? && r.error.LengthMismatch?) <==>
            var name := VibrationGroupName(vibration);
            && name in store.groups
            && var g := store.groups[name];
            && VibrationTimestampKey in g.arrays && VibrationDataKey in g.arrays
            && |g.arrays[VibrationTimestampKey]| != |g.arrays[VibrationDataKey]|
    ensures (r.Err? && r.error.LengthMismatch?) ==>
            var name := VibrationGroupName(vibration);
            var g := store.groups[name];
            r.error == LengthMismatch(name, VibrationDataKey, |g.arrays[VibrationTimestampKey]|, |g.arrays[VibrationDataKey]|)
    ensures r.Ok? <==>
            var name := VibrationGroupName(vibration);
            && name in store.groups
            && var g := store.groups[name];
            && VibrationTimestampKey in g.arrays && VibrationDataKey in g.arrays
            && |g.arrays[VibrationTimestampKey]| == |g.arrays[VibrationDataKey]|
    ensures r.Ok? ==>
            var g := store.groups[VibrationGroupName(vibration)];
            r.value == [Column(TimestampColumn, g.arrays[VibrationTimestampKey]),
                        Column(DataColumn, g.arrays[VibrationDataKey])]
  {
    var name := VibrationGroupName(vibration);
    if name !in store.groups then Err(GroupNotFound(name, store.names))
    else
      var g := store.groups[name];
      if VibrationTimestampKey !in g.arrays || VibrationDataKey !in g.arrays then
        Err(TimestampOrDataMissing(name))
      else
        var timestamps := g.arrays[VibrationTimestampKey];
        var values := g.arrays[VibrationDataKey];
        if |timestamps| != |values| then
          Err(LengthMismatch(name, VibrationDataKey, |timestamps|, |values|))
        else
          Ok([Column(TimestampColumn, timestamps), Column(DataColumn, values)])
  }

  // ---------------------------------------------------------------------------
  // Other groups

  /** The dataset key that, when present, holds a group's timestamps. */
  const TimeSentinel := "__time_UTC__s__"

  /** `[k for k in keys if k != x]`. */
  function Without(keys: seq<string>, x: string): (r: seq<string>)
    ensures x !in r
    ensures forall k :: k in r <==> k in keys && k != x
    ensures Distinct(keys) ==> Distinct(r)
    ensures x !in keys ==> r == keys
  {
    if |keys| == 0 then []
    else
      var tail := Without(keys[1..], x);
      assert Distinct(keys) ==> Distinct(keys[1..]) by {
        if Distinct(keys) {
          forall i, j | 0 <= i < j < |keys[1..]| ensures keys[1..][i] != keys[1..][j] {
            assert keys[i + 1] != keys[j + 1];
          }
        }
      }
      assert Distinct(keys) ==> Distinct([keys[0]] + tail) by {
        if Distinct(keys) {
          forall i, j | 0 <= i < j < 1 + |tail| ensures ([keys[0]] + tail)[i] != ([keys[0]] + tail)[j] {
            if i == 0 {
              assert tail[j - 1] in tail;
              assert tail[j - 1] in keys[1..];
            }
          }
        }
      }
      (if keys[0] == x then [] else [keys[0]]) + tail
  }

  /** `{k: group[k][:] for k in keys}`. */
  function DataColumns<T>(g: Group<T>, keys: seq<string>): (r: Table<T>)
    requires forall k :: k in keys ==> k in g.arrays
    ensures Names(r) == keys
    ensures forall i :: 0 <= i < |keys| ==> r[i] == Column(keys[i], g.arrays[keys[i]])
  {
    seq(|keys|, i requires 0 <= i < |keys| => Column(keys[i], g.arrays[keys[i]]))
  }

  /** The keys of a group that become data columns. */
  function DataKeys<T>(g: Group<T>): seq<string>
  {
    if TimeSentinel in g.arrays then Without(g.keys, TimeSentinel) else g.keys
  }

  /** load_other as a function of the store. */
  function OtherTable<T>(store: Store<T>, name: string): Result<Table<T>, LoadError>
    requires store.Valid()
  {
    if name !in store.groups then Err(GroupNotFound(name, store.names))
    else
      var g := store.groups[name];
      if |g.keys| == 0 then Err(EmptyGroup(name))
      else
        var dataKeys := DataKeys(g);
        if |dataKeys| == 0 then Err(NoDataColumns(name))
        else
          var t := OtherColumns(g);
          if Rectangular(t) then Ok(t) else Err(RaggedColumns(name))
  }

  /** The column dictionary load_other hands to the DataFrame constructor. */
  function OtherColumns<T>(g: Group<T>): Table<T>
    requires g.Valid()
  {
    var data := DataColumns(g, DataKeys(g));
    if TimeSentinel in g.arrays
    then PutAll([Column(TimestampColumn, g.arrays[TimeSentinel])], data)
    else data
  }

  /**
   * The errors load_other raises: a missing group (listing the store's groups),
   * a group without datasets, a group whose only dataset is the timestamp one,
   * and arrays of unequal lengths.
   */
  lemma OtherTableErrors<T>(store: Store<T>, name: string)
    requires store.Valid()
    ensures OtherTable(store, name) == Err(GroupNotFound(name, store.names)) <==> name !in store.groups
    ensures OtherTable(store, name) == Err(EmptyGroup(name))
        <==> name in store.groups && store.groups[name].keys == []
    ensures OtherTable(store, name) == Err(NoDataColumns(name))
        <==> name in store.groups && store.groups[name].keys == [TimeSentinel]
    ensures OtherTable(store, name) == Err(RaggedColumns(name))
        <==> && name in store.groups
             && store.groups[name].keys != [] && store.groups[name].keys != [TimeSentinel]
             && !Rectangular(OtherColumns(store.groups[name]))
    ensures OtherTable(store, name).Ok?
        ==> Rectangular(OtherTable(store, name).value) && |OtherTable(store, name).value| >= 1
  {
    if name in store.groups {
      var g := store.groups[name];
      assert g.Valid();
      if |g.keys| > 0 {
        if g.keys == [TimeSentinel] {
          assert Without(g.keys, TimeSentinel) == [] by {
            assert forall k :: k in g.keys ==> k == TimeSentinel;
          }
        } else {
          assert |DataKeys(g)| > 0 by {
            if TimeSentinel in g.arrays {
              var k := if g.keys[0] != TimeSentinel then g.keys[0] else g.keys[1];
              assert k in g.keys && k != TimeSentinel;
              assert k in DataKeys(g);
            }
          }
          if TimeSentinel in g.arrays {
            PutAllLength(g);
          }
        }
      }
    }
  }

  lemma PutAllLength<T>(g: Group<T>)
    requires g.Valid() && TimeSentinel in g.arrays
    ensures |PutAll([Column(TimestampColumn, g.arrays[TimeSentinel])], DataColumns(g, DataKeys(g)))| >= 1
  {
    PutAllNonEmpty([Column(TimestampColumn, g.arrays[TimeSentinel])], DataColumns(g, DataKeys(g)));
  }

  lemma {:induction false} PutAllNonEmpty<T>(t: Table<T>, cols: Table<T>)
    requires |t| >= 1
    ensures |PutAll(t, cols)| >= 1
    decreases |cols|
  {
    if |cols| > 0 {
      PutNames(t, cols[0]);
      PutAllNonEmpty(Put(t, cols[0]), cols[1..]);
    }
  }

  /**
   * With the timestamp dataset present (and no dataset literally named
   * `timestamp`), the table is a `timestamp` column holding it, then every
   * other dataset in stored key order; the timestamp key itself is no column.
   */
  lemma OtherTableWithTimestamp<T>(store: Store<T>, name: string)
    requires store.Valid()
    requires OtherTable(store, name).Ok?
    requires TimeSentinel in store.groups[name].arrays
    requires TimestampColumn !in store.groups[name].keys
    ensures var g := store.groups[name];
            var keys := Without(g.keys, TimeSentinel);
            && OtherTable(store, name).value
               == [Column(TimestampColumn, g.arrays[TimeSentinel])] + DataColumns(g, keys)
            && Names(OtherTable(store, name).value) == [TimestampColumn] + keys
            && TimeSentinel !in Names(OtherTable(store, name).value)
  {
    var g := store.groups[name];
    assert g.Valid();
    var keys := Without(g.keys, TimeSentinel);
    var head := [Column(TimestampColumn, g.arrays[TimeSentinel])];
    assert OtherTable(store, name).value == PutAll(head, DataColumns(g, keys));
    TimestampThenData(g);
  }

  /** The timestamp column and the data columns of a group have distinct names, so merging them appends. */
  lemma TimestampThenData<T>(g: Group<T>)
    requires g.Valid() && TimeSentinel in g.arrays && TimestampColumn !in g.keys
    ensures var keys := Without(g.keys, TimeSentinel);
            var head := [Column(TimestampColumn, g.arrays[TimeSentinel])];
            && PutAll(head, DataColumns(g, keys)) == head + DataColumns(g, keys)
            && Names(head + DataColumns(g, keys)) == [TimestampColumn] + keys
  {
    var keys := Without(g.keys, TimeSentinel);
    var head := [Column(TimestampColumn, g.arrays[TimeSentinel])];
    var data := DataColumns(g, keys);
    assert Names(head) == [TimestampColumn];
    NamesAppend(head, data);
    DistinctCons(TimestampColumn, keys);
    PutAllFresh(head, data);
  }

  /**
   * Without the timestamp dataset the table is every dataset in stored key
   * order: there is no timestamp column beyond a dataset that is itself named
   * `timestamp`.
   */
  lemma OtherTableWithoutTimestamp<T>(store: Store<T>, name: string)
    requires store.Valid()
    requires OtherTable(store, name).Ok?
    requires TimeSentinel !in store.groups[name].arrays
    ensures var g := store.groups[name];
            && OtherTable(store, name).value == DataColumns(g, g.keys)
            && Names(OtherTable(store, name).value) == g.keys
            && (TimestampColumn in Names(OtherTable(store, name).value) <==> TimestampColumn in g.keys)
  {
  }

  /**
   * A dataset named `timestamp` next to the timestamp dataset takes the
   * `timestamp` column's place: the dictionary entry it overwrites is the one
   * holding the timestamps.
   */
  lemma OtherTableTimestampOverwritten<T>(store: Store<T>, name: string)
    requires store.Valid()
    requires OtherTable(store, name).Ok?
    requires TimeSentinel in store.groups[name].arrays
    requires TimestampColumn in store.groups[name].keys
    ensures var g := store.groups[name];
            var t := OtherTable(store, name).value;
            && |t| >= 1
            && t[0] == Column(TimestampColumn, g.arrays[TimestampColumn])
            && Names(t) == [TimestampColumn] + Without(Without(g.keys, TimeSentinel), TimestampColumn)
  {
    var g := store.groups[name];
    assert g.Valid();
    var keys := Without(g.keys, TimeSentinel);
    var data := DataColumns(g, keys);
    var head := [Column(TimestampColumn, g.arrays[TimeSentinel])];
    assert OtherTable(store, name).value == PutAll(head, data);
    assert TimestampColumn in keys;
    var k :| 0 <= k < |keys| && keys[k] == TimestampColumn;
    assert Names(head) == [TimestampColumn];
    PutAllFirst(head, data);
    assert data[k] == Column(TimestampColumn, g.arrays[TimestampColumn]);
  }

  lemma AppendFreshName<T>(acc: Table<T>, c: Column<T>)
    requires Distinct(Names(acc)) && c.name !in Names(acc)
    ensures Names(acc + [c]) == Names(acc) + [c.name] && Distinct(Names(acc + [c]))
  {
    var acc' := acc + [c];
    NamesAppend(acc, [c]);
    assert Names([c]) == [c.name];
    forall i, j | 0 <= i < j < |acc'| ensures Names(acc')[i] != Names(acc')[j] {
      if j == |acc| { assert Names(acc)[i] in Names(acc); }
    }
  }

  /**
   * Storing distinct columns into a table whose later columns none of them
   * names: the first column is replaced by the one with its name, if any, and
   * the others are appended in order.
   */
  lemma {:induction false} PutAllFirst<T>(acc: Table<T>, cols: Table<T>)
    requires |acc| >= 1 && Distinct(Names(acc)) && Distinct(Names(cols))
    requires forall i, k :: 1 <= i < |acc| && 0 <= k < |cols| ==> acc[i].name != cols[k].name
    ensures Names(PutAll(acc, cols)) == Names(acc) + Without(Names(cols), acc[0].name)
    ensures forall k :: 0 <= k < |cols| && cols[k].name == acc[0].name ==> PutAll(acc, cols)[0] == cols[k]
    ensures acc[0].name !in Names(cols) ==> PutAll(acc, cols)[0] == acc[0]
    decreases |cols|
  {
    if |cols| > 0 {
      var acc', rest := Put(acc, cols[0]), cols[1..];
      PutAllFirstStep(acc, cols);
      PutAllFirst(acc', rest);
      assert PutAll(acc, cols) == PutAll(acc', rest);
      forall k | 0 <= k < |cols| && cols[k].name == acc[0].name ensures PutAll(acc, cols)[0] == cols[k] {
        if k == 0 {
          assert cols[0].name !in Names(rest);
        } else {
          assert rest[k - 1] == cols[k];
        }
      }
    }
  }

  lemma ConcatAssociative<X>(a: seq<X>, b: seq<X>, c: seq<X>)
    ensures (a + b) + c == a + (b + c)
  {
  }

  /** One column of PutAllFirst: the requirements carry over and the promised names do not change. */
  lemma PutAllFirstStep<T>(acc: Table<T>, cols: Table<T>)
    requires |acc| >= 1 && Distinct(Names(acc)) && Distinct(Names(cols)) && |cols| >= 1
    requires forall i, k :: 1 <= i < |acc| && 0 <= k < |cols| ==> acc[i].name != cols[k].name
    ensures var acc', rest := Put(acc, cols[0]), cols[1..];
            && |acc'| >= 1 && Distinct(Names(acc')) && Distinct(Names(rest))
            && (forall i, k :: 1 <= i < |acc'| && 0 <= k < |rest| ==> acc'[i].name != rest[k].name)
            && acc'[0] == (if cols[0].name == acc[0].name then cols[0] else acc[0])
            && Names(cols) == [cols[0].name] + Names(rest) && cols[0].name !in Names(rest)
            && Names(acc') + Without(Names(rest), acc'[0].name) == Names(acc) + Without(Names(cols), acc[0].name)
  {
    var c := cols[0];
    var rest := cols[1..];
    NamesCons(cols);
    if c.name == acc[0].name {
      var acc' := [c] + acc[1..];
      assert Put(acc, c) == acc';
      assert Names(acc') == Names(acc);
      assert Without(Names(cols), c.name) == Without(Names(rest), c.name);
    } else {
      assert c.name !in Names(acc) by {
        forall i | 0 <= i < |acc| ensures acc[i].name != c.name {
          if i >= 1 { assert acc[i].name != cols[0].name; }
        }
      }
      PutFresh(acc, c);
      var acc' := acc + [c];
      AppendFreshName(acc, c);
      assert forall i, k :: 1 <= i < |acc'| && 0 <= k < |rest| ==> acc'[i].name != rest[k].name by {
        forall i, k | 1 <= i < |acc'| && 0 <= k < |rest| ensures acc'[i].name != rest[k].name {
          if i < |acc| { assert rest[k] == cols[k + 1]; } else { assert Names(rest)[k] != c.name; }
        }
      }
      var n := acc[0].name;
      assert Without(Names(cols), n) == [c.name] + Without(Names(rest), n);
      ConcatAssociative(Names(acc), [c.name], Without(Names(rest), n));
    }
  }

  // ---------------------------------------------------------------------------
  // The table invariant shared by all loaders

  /**
   * Whatever a loader returns is a proper table: every column as long as the
   * others and no column name twice.
   */
  lemma LoadedTablesAreRectangular<T>(store: Store<T>, fiber: int, sel: SensorSelection, vibration: int, other: string)
    requires store.Valid()
    ensures FiberTable(store, fiber, sel).Ok? ==>
            var t := FiberTable(store, fiber, sel).value; Rectangular(t) && Distinct(Names(t))
    ensures VibrationTable(store, vibration).Ok? ==>
            var t := VibrationTable(store, vibration).value; Rectangular(t) && Distinct(Names(t))
    ensures OtherTable(store, other).Ok? ==>
            var t := OtherTable(store, other).value; Rectangular(t) && Distinct(Names(t))
  {
    if FiberTable(store, fiber, sel).Ok? {
      FiberTableIsRectangular(store, fiber, sel);
    }
    if VibrationTable(store, vibration).Ok? {
      VibrationTableIsRectangular(store, vibration);
    }
    if OtherTable(store, other).Ok? {
      OtherTableIsRectangular(store, other);
    }
  }

  lemma FiberTableIsRectangular<T>(store: Store<T>, fiber: int, sel: SensorSelection)
    requires store.Valid() && FiberTable(store, fiber, sel).Ok?
    ensures var t := FiberTable(store, fiber, sel).value; Rectangular(t) && Distinct(Names(t))
  {
    FiberTableShape(store, fiber, sel);
  }

  lemma VibrationTableIsRectangular<T>(store: Store<T>, vibration: int)
    requires store.Valid() && VibrationTable(store, vibration).Ok?
    ensures var t := VibrationTable(store, vibration).value; Rectangular(t) && Distinct(Names(t))
  {
  }

  lemma OtherTableIsRectangular<T>(store: Store<T>, other: string)
    requires store.Valid() && OtherTable(store, other).Ok?
    ensures var t := OtherTable(store, other).value; Rectangular(t) && Distinct(Names(t))
  {
    var g := store.groups[other];
    assert g.Valid();
    if TimeSentinel in g.arrays {
      PutAllKeepsNamesDistinct([Column(TimestampColumn, g.arrays[TimeSentinel])], DataColumns(g, DataKeys(g)));
    }
  }
}
