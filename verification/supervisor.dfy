/**
 The pool supervisor's decision logic: from the per-instance account counts it
 computes a polling interval for each instance and decides whether the worker
 for that instance is created, replaced by a faster one, or left alone.

 Intervals are integers counting tenths of a second, so the source's
 `(11 - ceil(cnt / 10)) * 0.1` seconds becomes `11 - ceil(cnt / 10)` tenths.
 The workers map records, per instance, the interval its worker runs at.
 */
module Supervisor {
  import opened Entities

  /** One row of the grouped count query: an instance and its number of accounts. */
  datatype Row = Row(instance: string, cnt: nat)

  /** Instance -> interval (tenths of a second) of the worker polling it. */
  type WorkerMap = map<string, int>

  /** What the supervisor does for one row. */
  datatype Decision = Spawn(interval: int) | Keep

  /** `Math.ceil(cnt / 10)`: the least `k` with `10 * k >= cnt`. */
  function CeilTenth(cnt: nat): (k: nat)
    ensures cnt <= 10 * k < cnt + 10
  {
    (cnt + 9) / 10
  }

  /** The interval an instance with `cnt` accounts needs. It drops by one tenth
      for every further block of ten accounts and goes negative past 110. */
  function NeededInterval(cnt: nat): (r: int)
    ensures cnt <= 10 * (11 - r) < cnt + 10
  {
    11 - CeilTenth(cnt)
  }

  /** The needed interval, floored at the global minimum. */
  function AllowedInterval(cnt: nat, minInterval: int): (r: int)
    ensures r >= minInterval && r >= NeededInterval(cnt)
    ensures r == minInterval || r == NeededInterval(cnt)
  {
    if NeededInterval(cnt) >= minInterval then NeededInterval(cnt) else minInterval
  }

  function Lookup(workers: WorkerMap, instance: string): Option<int>
  {
    if instance in workers then Some(workers[instance]) else None
  }

  /** Spawn a worker when there is none, or when the allowed interval is
      strictly faster than the current worker's; otherwise keep it. */
  function Decide(current: Option<int>, allowed: int): (d: Decision)
    ensures d.Spawn? <==> current.None? || allowed < current.value
    ensures d.Spawn? ==> d.interval == allowed
  {
    match current
    case None => Spawn(allowed)
    case Some(interval) => if allowed < interval then Spawn(allowed) else Keep
  }

  /** The interval an instance's worker runs at once a row for it with `cnt`
      accounts has been handled: the faster of the current and the allowed one. */
  function Settled(workers: WorkerMap, instance: string, cnt: nat, minInterval: int): int
  {
    var allowed := AllowedInterval(cnt, minInterval);
    if instance in workers && workers[instance] <= allowed then workers[instance] else allowed
  }

  /** Handling of one row of the count query. */
  function Step(workers: WorkerMap, row: Row, minInterval: int): (r: WorkerMap)
    ensures r.Keys == workers.Keys + {row.instance}
    ensures forall k :: k in workers && k != row.instance ==> r[k] == workers[k]
    ensures row.instance in workers ==> r[row.instance] <= workers[row.instance]
    ensures r[row.instance] <= AllowedInterval(row.cnt, minInterval)
    ensures row.instance in workers && AllowedInterval(row.cnt, minInterval) >= workers[row.instance]
            ==> r == workers
    ensures r[row.instance] == Settled(workers, row.instance, row.cnt, minInterval)
  {
    match Decide(Lookup(workers, row.instance), AllowedInterval(row.cnt, minInterval))
    case Spawn(interval) => workers[row.instance := interval]
    case Keep => workers
  }

  /** The instances named by a sequence of rows. */
  function Instances(rows: seq<Row>): set<string>
  {
    if rows == [] then {} else {rows[0].instance} + Instances(rows[1..])
  }

  /** An instance in `Instances(rows)` is named by some row. */
  lemma {:induction false} InstancesNamed(rows: seq<Row>, k: string)
    requires k in Instances(rows)
    ensures exists i :: 0 <= i < |rows| && rows[i].instance == k
    decreases |rows|
  {
    if rows[0].instance != k {
      InstancesNamed(rows[1..], k);
      var i :| 0 <= i < |rows[1..]| && rows[1..][i].instance == k;
      assert rows[i + 1].instance == k;
    }
  }

  /** An instance no row names is not in `Instances(rows)`. */
  lemma {:induction false} InstancesUnnamed(rows: seq<Row>, k: string)
    requires forall i :: 0 <= i < |rows| ==> rows[i].instance != k
    ensures k !in Instances(rows)
    decreases |rows|
  {
    if rows != [] {
      assert forall i :: 0 <= i < |rows[1..]| ==> rows[1..][i] == rows[i + 1];
      InstancesUnnamed(rows[1..], k);
    }
  }

  /** The count query groups by instance, so no instance appears twice. */
  predicate Distinct(rows: seq<Row>)
  {
    forall i, j :: 0 <= i < j < |rows| ==> rows[i].instance != rows[j].instance
  }

  /** Dropping the first row keeps the rest distinct, and none of them names
      the first row's instance. */
  lemma DistinctTail(rows: seq<Row>)
    requires Distinct(rows) && |rows| > 0
    ensures Distinct(rows[1..])
    ensures rows[0].instance !in Instances(rows[1..])
  {
    var rest := rows[1..];
    assert forall j :: 0 <= j < |rest| ==> rest[j] == rows[j + 1];
    InstancesUnnamed(rest, rows[0].instance);
  }

  /** One supervisor run: every row of the count query, in order. */
  function Pass(workers: WorkerMap, rows: seq<Row>, minInterval: int): (r: WorkerMap)
    ensures r.Keys == workers.Keys + Instances(rows)
    ensures forall k :: k in workers && k !in Instances(rows) ==> r[k] == workers[k]
    ensures forall k :: k in workers ==> r[k] <= workers[k]
    ensures forall i :: 0 <= i < |rows| ==> rows[i].instance in r
    ensures forall i :: 0 <= i < |rows| ==> r[rows[i].instance] <= AllowedInterval(rows[i].cnt, minInterval)
    decreases |rows|
  {
    if rows == [] then workers
    else
      var r := Pass(Step(workers, rows[0], minInterval), rows[1..], minInterval);
      assert forall i :: 1 <= i < |rows| ==> rows[i] == rows[1..][i - 1];
      r
  }

  /** The count of the first row naming `instance`. */
  function CountOf(rows: seq<Row>, instance: string): nat
    requires instance in Instances(rows)
    decreases |rows|
  {
    if rows[0].instance == instance then rows[0].cnt else CountOf(rows[1..], instance)
  }

  /** `CountOf` reads the count off a row that names the instance. */
  lemma {:induction false} CountOfNamed(rows: seq<Row>, instance: string)
    requires instance in Instances(rows)
    ensures exists i :: 0 <= i < |rows| && rows[i].instance == instance && rows[i].cnt == CountOf(rows, instance)
    decreases |rows|
  {
    if rows[0].instance != instance {
      CountOfNamed(rows[1..], instance);
      var i :| 0 <= i < |rows[1..]| && rows[1..][i].instance == instance && rows[1..][i].cnt == CountOf(rows, instance);
      assert rows[i + 1] == rows[1..][i];
    }
  }

  /** Reference description of a run over distinct rows: each listed instance
      ends at its settled interval, every other entry is as before. */
  function PassSpec(workers: WorkerMap, rows: seq<Row>, minInterval: int): WorkerMap
  {
    map k | k in workers.Keys + Instances(rows) ::
      if k in Instances(rows) then Settled(workers, k, CountOf(rows, k), minInterval) else workers[k]
  }

  /** Table values of the step function (tenths of a second). */
  lemma NeededIntervalTable()
    ensures NeededInterval(0) == 11
    ensures NeededInterval(1) == 10 && NeededInterval(10) == 10
    ensures NeededInterval(11) == 9 && NeededInterval(25) == 8
    ensures NeededInterval(100) == 1 && NeededInterval(101) == 0
    ensures NeededInterval(111) == -1
  {
  }

  /** More accounts never need a slower worker. */
  lemma NeededIntervalMonotone(a: nat, b: nat)
    requires a <= b
    ensures NeededInterval(b) <= NeededInterval(a)
  {
  }

  /** Flooring keeps the step function's monotonicity. */
  lemma AllowedIntervalMonotone(a: nat, b: nat, minInterval: int)
    requires a <= b
    ensures AllowedInterval(b, minInterval) <= AllowedInterval(a, minInterval)
  {
    NeededIntervalMonotone(a, b);
  }

  /** Over distinct rows, each listed instance ends at its settled interval. */
  lemma {:induction false} PassSettles(workers: WorkerMap, rows: seq<Row>, minInterval: int, i: nat)
    requires Distinct(rows)
    requires i < |rows|
    ensures rows[i].instance in Pass(workers, rows, minInterval)
    ensures Pass(workers, rows, minInterval)[rows[i].instance]
            == Settled(workers, rows[i].instance, rows[i].cnt, minInterval)
    decreases |rows|
  {
    var next := Step(workers, rows[0], minInterval);
    var rest := rows[1..];
    assert Pass(workers, rows, minInterval) == Pass(next, rest, minInterval);
    DistinctTail(rows);
    if i == 0 {
      assert next[rows[0].instance] == Settled(workers, rows[0].instance, rows[0].cnt, minInterval);
    } else {
      var k := rows[i].instance;
      assert rest[i - 1] == rows[i];
      assert k != rows[0].instance;
      PassSettles(next, rest, minInterval, i - 1);
      assert Settled(next, k, rows[i].cnt, minInterval) == Settled(workers, k, rows[i].cnt, minInterval);
    }
  }

  /** Over distinct rows, a listed instance ends at the settled interval for
      its own row's count. */
  lemma {:induction false} PassAt(workers: WorkerMap, rows: seq<Row>, minInterval: int, k: string)
    requires Distinct(rows)
    requires k in Instances(rows)
    ensures k in Pass(workers, rows, minInterval)
    ensures Pass(workers, rows, minInterval)[k] == Settled(workers, k, CountOf(rows, k), minInterval)
  {
    CountOfNamed(rows, k);
    var j :| 0 <= j < |rows| && rows[j].instance == k && rows[j].cnt == CountOf(rows, k);
    PassSettles(workers, rows, minInterval, j);
  }

  /** One entry of a run over distinct rows agrees with the reference description. */
  lemma {:induction false} PassSpecAt(workers: WorkerMap, rows: seq<Row>, minInterval: int, k: string)
    requires Distinct(rows)
    requires k in workers.Keys + Instances(rows)
    ensures k in Pass(workers, rows, minInterval) && k in PassSpec(workers, rows, minInterval)
    ensures Pass(workers, rows, minInterval)[k] == PassSpec(workers, rows, minInterval)[k]
  {
    if k in Instances(rows) {
      PassAt(workers, rows, minInterval, k);
    }
  }

  /** Over distinct rows, a run agrees with the reference description. */
  lemma {:induction false} PassMatchesSpec(workers: WorkerMap, rows: seq<Row>, minInterval: int)
    requires Distinct(rows)
    ensures Pass(workers, rows, minInterval) == PassSpec(workers, rows, minInterval)
  {
    var r := Pass(workers, rows, minInterval);
    var s := PassSpec(workers, rows, minInterval);
    assert r.Keys == s.Keys;
    forall k | k in r.Keys
      ensures r[k] == s[k]
    {
      PassSpecAt(workers, rows, minInterval, k);
    }
  }

  /** Repeating a run over the same distinct rows changes nothing more. */
  lemma {:induction false} PassIdempotent(workers: WorkerMap, rows: seq<Row>, minInterval: int)
    requires Distinct(rows)
    ensures Pass(Pass(workers, rows, minInterval), rows, minInterval) == Pass(workers, rows, minInterval)
  {
    var once := Pass(workers, rows, minInterval);
    var twice := Pass(once, rows, minInterval);
    assert twice.Keys == once.Keys;
    forall k | k in once.Keys
      ensures twice[k] == once[k]
    {
      if k in Instances(rows) {
        PassAt(workers, rows, minInterval, k);
        PassAt(once, rows, minInterval, k);
      }
    }
  }

  /** 25 accounts with a floor of one tenth: a worker at 10 tenths is replaced
      by one at 8, a worker at 5 tenths is kept. */
  lemma EndToEnd()
    ensures AllowedInterval(25, 1) == 8
    ensures Decide(Some(10), AllowedInterval(25, 1)) == Spawn(8)
    ensures Decide(Some(5), AllowedInterval(25, 1)) == Keep
    ensures Pass(map["x.example" := 10], [Row("x.example", 25)], 1) == map["x.example" := 8]
    ensures Pass(map["x.example" := 5], [Row("x.example", 25)], 1) == map["x.example" := 5]
    ensures AllowedInterval(101, 1) == 1 && AllowedInterval(500, 1) == 1
  {
  }

  /** How a run of the code as written ends: every row handled, or an
      exception raised while handling `row`, with the map as it stood then. */
  datatype Run = Finished(workers: WorkerMap) | Threw(workers: WorkerMap, row: Row)

  /** One row as the code is written. Replacing an existing worker first calls
      `quit` on it, a method the worker class does not define, so the step
      throws before the map is updated. Creating a first worker and keeping
      one behave as in `Step`. */
  function StepAsWritten(workers: WorkerMap, row: Row, minInterval: int): (r: Run)
    ensures r.Threw? <==> row.instance in workers && AllowedInterval(row.cnt, minInterval) < workers[row.instance]
    ensures r.Threw? ==> r.workers == workers && r.row == row
    ensures r.Finished? ==> r.workers == Step(workers, row, minInterval)
    ensures r.Finished? ==> forall k :: k in workers ==> k in r.workers && r.workers[k] == workers[k]
  {
    match Decide(Lookup(workers, row.instance), AllowedInterval(row.cnt, minInterval))
    case Spawn(interval) =>
      if row.instance in workers then Threw(workers, row) else Finished(workers[row.instance := interval])
    case Keep => Finished(workers)
  }

  /** A run as the code is written: the rows in order until a step throws; the
      exception leaves the `forEach`, so the remaining rows are not handled. */
  function PassAsWritten(workers: WorkerMap, rows: seq<Row>, minInterval: int): (r: Run)
    ensures workers.Keys <= r.workers.Keys <= workers.Keys + Instances(rows)
    ensures forall k :: k in workers ==> r.workers[k] == workers[k]
    ensures r.Finished? ==> r.workers == Pass(workers, rows, minInterval)
    ensures r.Threw? ==> r.row in rows
    ensures r.Threw? ==>
      r.row.instance in r.workers && AllowedInterval(r.row.cnt, minInterval) < r.workers[r.row.instance]
    decreases |rows|
  {
    if rows == [] then Finished(workers)
    else
      match StepAsWritten(workers, rows[0], minInterval)
      case Threw(at, row) => Threw(at, row)
      case Finished(next) => PassAsWritten(next, rows[1..], minInterval)
  }

  /** Over distinct rows, the code as written completes its run exactly when
      the intended run would replace no existing worker; whenever a faster
      worker is due for an instance that already has one, it throws instead. */
  lemma {:induction false} AsWrittenCompletesIff(workers: WorkerMap, rows: seq<Row>, minInterval: int)
    requires Distinct(rows)
    ensures PassAsWritten(workers, rows, minInterval).Finished? <==>
      forall k :: k in workers ==> Pass(workers, rows, minInterval)[k] == workers[k]
    decreases |rows|
  {
    if rows != [] {
      var first := StepAsWritten(workers, rows[0], minInterval);
      var k0 := rows[0].instance;
      DistinctTail(rows);
      if first.Threw? {
        PassSettles(workers, rows, minInterval, 0);
        assert Pass(workers, rows, minInterval)[k0] < workers[k0];
      } else {
        var next := first.workers;
        var rest := rows[1..];
        assert PassAsWritten(workers, rows, minInterval) == PassAsWritten(next, rest, minInterval);
        assert Pass(workers, rows, minInterval) == Pass(next, rest, minInterval);
        AsWrittenCompletesIff(next, rest, minInterval);
        if k0 !in workers {
          assert Pass(next, rest, minInterval)[k0] == next[k0];
        }
      }
    }
  }

  /** The run that shows the difference: the first row calls for a faster
      worker on `x.example`, which already has one. As written the run throws
      there, `x.example` keeps its slow worker and `y.example` gets none; the
      intended run replaces the one and creates the other. */
  lemma AsWrittenSkipsLaterRows()
    ensures PassAsWritten(map["x.example" := 10], [Row("x.example", 25), Row("y.example", 5)], 1)
            == Threw(map["x.example" := 10], Row("x.example", 25))
    ensures Pass(map["x.example" := 10], [Row("x.example", 25), Row("y.example", 5)], 1)
            == map["x.example" := 8, "y.example" := 10]
  {
    var rows := [Row("x.example", 25), Row("y.example", 5)];
    assert rows[1..] == [Row("y.example", 5)];
  }
}
