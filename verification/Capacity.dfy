/** The session cap recommended from a load ramp, scripts/rdp_capacity.py. Measurements are real
    numbers; a cell that holds no plain count or no finite number is None. */
module Capacity {
  import opened Wrappers

  datatype Row = Row(concurrency: Option<int>, attempts: Option<int>, failures: Option<int>, reconnects: Option<int>,
                     reconnectFailures: Option<int>, minutes: Option<real>, duration: Option<real>, firstFrame: Option<real>,
                     reconnect: Option<real>, drops: Option<int>, cpu: Option<real>, memory: Option<real>)

  /** A row that was read: one sustained plateau. */
  datatype Plateau = Plateau(concurrency: int, attempts: int, failures: int, reconnects: int, reconnectFailures: int,
                             minutes: real, duration: real, firstFrame: real, reconnect: real, drops: int, cpu: real, memory: real)

  datatype Error = NoStages | BadCount | NotIncreasing | FailuresExceedAttempts | BadMeasurement | BadPercentage

  datatype Limits = Limits(minSteady: real, firstFrame: real, reconnect: real, maxCpu: real, maxMemory: real,
                           maxFailureRate: real, maxDrops: real, reserve: real)

  predicate IsCount(v: Option<int>, minimum: int) {
    v.Some? && v.value >= minimum
  }

  predicate IsPositive(v: Option<real>) {
    v.Some? && v.value > 0.0
  }

  /** The checks of one row, in the order in which the first to fail raises. */
  function Read(row: Row, previous: int): Result<Plateau, Error> {
    if !IsCount(row.concurrency, 1) then Err(BadCount)
    else if row.concurrency.value <= previous then Err(NotIncreasing)
    else if !IsCount(row.attempts, row.concurrency.value) || !IsCount(row.failures, 0)
            || !IsCount(row.reconnects, row.concurrency.value) || !IsCount(row.reconnectFailures, 0) then Err(BadCount)
    else if row.failures.value > row.attempts.value || row.reconnectFailures.value > row.reconnects.value then Err(FailuresExceedAttempts)
    else if !IsPositive(row.minutes) || !IsPositive(row.duration) || !IsPositive(row.firstFrame) || !IsPositive(row.reconnect) then
      Err(BadMeasurement)
    else if !IsCount(row.drops, 0) then Err(BadCount)
    else if !IsPositive(row.cpu) || !IsPositive(row.memory) then Err(BadMeasurement)
    else if row.cpu.value > 100.0 || row.memory.value > 100.0 then Err(BadPercentage)
    else Ok(Plateau(row.concurrency.value, row.attempts.value, row.failures.value, row.reconnects.value, row.reconnectFailures.value,
                    row.minutes.value, row.duration.value, row.firstFrame.value, row.reconnect.value, row.drops.value,
                    row.cpu.value, row.memory.value))
  }

  datatype Check = Soak | Exposure | Connects | Reconnects | FirstFrame | ReconnectLatency | Drops | Cpu | Memory

  function Checks(): seq<Check> {
    [Soak, Exposure, Connects, Reconnects, FirstFrame, ReconnectLatency, Drops, Cpu, Memory]
  }

  /** What Read guarantees of a plateau. */
  predicate Sane(p: Plateau) {
    && 1 <= p.concurrency <= p.attempts && p.concurrency <= p.reconnects
    && 0 <= p.failures <= p.attempts && 0 <= p.reconnectFailures <= p.reconnects && 0 <= p.drops
    && p.minutes > 0.0 && p.duration > 0.0 && p.firstFrame > 0.0 && p.reconnect > 0.0
    && 0.0 < p.cpu <= 100.0 && 0.0 < p.memory <= 100.0
  }

  predicate Holds(c: Check, p: Plateau, l: Limits)
    requires Sane(p)
  {
    match c
    case Soak => p.duration >= l.minSteady
    case Exposure => p.minutes >= p.concurrency as real * p.duration
    case Connects => p.failures as real / p.attempts as real <= l.maxFailureRate
    case Reconnects => p.reconnectFailures as real / p.reconnects as real <= l.maxFailureRate
    case FirstFrame => p.firstFrame <= l.firstFrame
    case ReconnectLatency => p.reconnect <= l.reconnect
    case Drops => p.drops as real / (p.minutes / 60.0) <= l.maxDrops
    case Cpu => p.cpu <= l.maxCpu
    case Memory => p.memory <= l.maxMemory
  }

  predicate AllHold(cs: seq<Check>, p: Plateau, l: Limits)
    requires Sane(p)
  {
    forall c :: c in cs ==> Holds(c, p, l)
  }

  predicate Passes(p: Plateau, l: Limits)
    requires Sane(p)
  {
    AllHold(Checks(), p, l)
  }

  /** Sessions left after the reserve; None for none. */
  function Ceiling(concurrency: int, l: Limits): Option<int> {
    var n := (concurrency as real * (1.0 - l.reserve)).Floor;
    if n == 0 then None else Some(n)
  }

  datatype Stage = Stage(concurrency: int, failures: seq<Check>)

  datatype Verdict = Verdict(cap: Option<int>, stages: seq<Stage>)

  // ---- what the answer should be ------------------------------------------------------

  predicate IsRamp(ps: seq<Plateau>) {
    && (forall i :: 0 <= i < |ps| ==> Sane(ps[i]))
    && (forall i, j :: 0 <= i < j < |ps| ==> ps[i].concurrency < ps[j].concurrency)
  }

  type Ramp = ps: seq<Plateau> | IsRamp(ps)

  function Last(ps: seq<Plateau>): int {
    if ps == [] then 0 else ps[|ps| - 1].concurrency
  }

  /** Every row read, or the first error. */
  function ReadAll(rows: seq<Row>): (r: Result<seq<Plateau>, Error>)
    ensures r.Ok? ==> |r.value| == |rows|
  {
    if rows == [] then Ok([])
    else match ReadAll(rows[..|rows| - 1])
      case Err(e) => Err(e)
      case Ok(ps) =>
        match Read(rows[|rows| - 1], Last(ps))
        case Err(e) => Err(e)
        case Ok(p) => Ok(ps + [p])
  }

  /** How many stages pass before the first that does not. */
  function PassingPrefix(ps: Ramp, l: Limits): (k: nat)
    ensures k <= |ps|
    ensures forall i :: 0 <= i < k ==> Passes(ps[i], l)
    ensures k < |ps| ==> !Passes(ps[k], l)
  {
    PrefixFrom(ps, 0, l)
  }

  function PrefixFrom(ps: Ramp, i: nat, l: Limits): (k: nat)
    requires i <= |ps|
    ensures i <= k <= |ps|
    ensures forall j :: i <= j < k ==> Passes(ps[j], l)
    ensures k < |ps| ==> !Passes(ps[k], l)
    decreases |ps| - i
  {
    if i == |ps| || !Passes(ps[i], l) then i else PrefixFrom(ps, i + 1, l)
  }

  /** The cap that the last stage of the longest all-passing prefix supports. */
  function Cap(ps: Ramp, l: Limits): Option<int> {
    var k := PassingPrefix(ps, l);
    if k == 0 then None else Ceiling(ps[k - 1].concurrency, l)
  }

  function Failed(cs: seq<Check>, p: Plateau, l: Limits): (r: seq<Check>)
    requires Sane(p)
    ensures forall c :: c in r <==> c in cs && !Holds(c, p, l)
  {
    if cs == [] then []
    else
      var c := cs[|cs| - 1];
      Failed(cs[..|cs| - 1], p, l) + if Holds(c, p, l) then [] else [c]
  }

  function Report(p: Plateau, l: Limits): Stage
    requires Sane(p)
  {
    Stage(p.concurrency, Failed(Checks(), p, l))
  }

  function Reports(ps: Ramp, l: Limits): (r: seq<Stage>)
    ensures |r| == |ps| && forall i :: 0 <= i < |ps| ==> r[i] == Report(ps[i], l)
  {
    if ps == [] then [] else Reports(ps[..|ps| - 1], l) + [Report(ps[|ps| - 1], l)]
  }

  // ---- the evaluator ---------------------------------------------------------------------

  method Assess(cs: seq<Check>, p: Plateau, l: Limits) returns (reasons: seq<Check>)
    requires Sane(p)
    ensures reasons == Failed(cs, p, l)
    ensures reasons == [] <==> AllHold(cs, p, l)
  {
    hide Holds;
    reasons := [];
    for i := 0 to |cs|
      invariant reasons == Failed(cs[..i], p, l)
    {
      assert cs[..i + 1][..i] == cs[..i];
      if !Holds(cs[i], p, l) {
        reasons := reasons + [cs[i]];
      }
    }
    assert cs[..|cs|] == cs;
    assert reasons != [] ==> reasons[0] in reasons;
  }

  /** evaluate: a malformed row is an error wherever it stands; otherwise every stage is
      reported and the cap is the one the all-passing prefix supports. */
  method Evaluate(rows: seq<Row>, l: Limits) returns (r: Result<Verdict, Error>)
    ensures rows == [] ==> r == Err(NoStages)
    ensures rows != [] && ReadAll(rows).Err? ==> r == Err(ReadAll(rows).error)
    ensures rows != [] && ReadAll(rows).Ok? ==>
              IsRamp(ReadAll(rows).value) && r == Ok(Verdict(Cap(ReadAll(rows).value, l), Reports(ReadAll(rows).value, l)))
  {
    if rows == [] {
      return Err(NoStages);
    }
    hide Read, ReadAll, Ceiling, Failed, Reports, Cap, PassingPrefix, Last, IsRamp, Sane, AllHold, Checks;
    var stages: seq<Stage> := [];
    var previous := 0;
    var eligible := true;
    var cap: Option<int> := None;
    ghost var ps: Ramp := [];
    NothingYet(rows, l);
    for i := 0 to |rows|
      invariant ReadAll(rows[..i]) == Ok(ps) && |ps| == i
      invariant previous == Last(ps)
      invariant eligible <==> PassingPrefix(ps, l) == |ps|
      invariant cap == Cap(ps, l)
      invariant stages == Reports(ps, l)
    {
      match Read(rows[i], previous)
      case Err(e) =>
        ReadStops(rows, i, ps);
        return Err(e);
      case Ok(p) =>
        ps := ReadGoesOn(rows, i, ps, p, l);
        var reasons := Assess(Checks(), p, l);
        previous := p.concurrency;
        eligible := eligible && reasons == [];
        if eligible {
          cap := Ceiling(p.concurrency, l);
        }
        stages := stages + [Stage(p.concurrency, reasons)];
    }
    assert rows[..|rows|] == rows;
    r := Ok(Verdict(cap, stages));
  }

  lemma NothingYet(rows: seq<Row>, l: Limits)
    ensures ReadAll(rows[..0]) == Ok([]) && Last([]) == 0 && PassingPrefix([], l) == 0 && Cap([], l) == None && Reports([], l) == []
  {
  }

  lemma ReadOneMore(rows: seq<Row>, i: nat, ps: seq<Plateau>)
    requires i < |rows| && ReadAll(rows[..i]) == Ok(ps)
    ensures ReadAll(rows[..i + 1]) == match Read(rows[i], Last(ps)) case Err(e) => Err(e) case Ok(p) => Ok(ps + [p])
  {
    assert rows[..i + 1][..i] == rows[..i];
  }

  lemma ReadStops(rows: seq<Row>, i: nat, ps: seq<Plateau>)
    requires i < |rows| && ReadAll(rows[..i]) == Ok(ps) && Read(rows[i], Last(ps)).Err?
    ensures ReadAll(rows) == Err(Read(rows[i], Last(ps)).error)
  {
    ReadOneMore(rows, i, ps);
    ErrorsStay(rows, i + 1);
  }

  lemma ReadGoesOn(rows: seq<Row>, i: nat, ps: Ramp, p: Plateau, l: Limits) returns (next: Ramp)
    requires i < |rows| && ReadAll(rows[..i]) == Ok(ps) && Read(rows[i], Last(ps)) == Ok(p)
    ensures Sane(p) && ReadAll(rows[..i + 1]) == Ok(next) && |next| == |ps| + 1 && Last(next) == p.concurrency
    ensures PassingPrefix(next, l) == |next| <==> PassingPrefix(ps, l) == |ps| && Passes(p, l)
    ensures Cap(next, l) == if PassingPrefix(ps, l) == |ps| && Passes(p, l) then Ceiling(p.concurrency, l) else Cap(ps, l)
    ensures Reports(next, l) == Reports(ps, l) + [Report(p, l)]
  {
    ReadOneMore(rows, i, ps);
    ReadIsSane(rows[i], Last(ps));
    hide Read, ReadAll, Holds, Passes, Ceiling, Cap, PassingPrefix, Failed;
    NextStage(ps, p, l);
    next := ps + [p];
  }

  lemma ReadIsSane(row: Row, previous: int)
    requires Read(row, previous).Ok?
    ensures Sane(Read(row, previous).value) && Read(row, previous).value.concurrency > previous
  {
  }

  lemma {:induction false} ErrorsStay(rows: seq<Row>, i: nat)
    requires i <= |rows| && ReadAll(rows[..i]).Err?
    ensures ReadAll(rows) == ReadAll(rows[..i])
    decreases |rows| - i
  {
    if i == |rows| {
      assert rows[..i] == rows;
    } else {
      assert rows[..i + 1][..i] == rows[..i];
      ErrorsStay(rows, i + 1);
    }
  }

  /** How one more stage changes prefix and cap. */
  lemma NextStage(ps: Ramp, p: Plateau, l: Limits)
    requires Sane(p) && Last(ps) < p.concurrency
    ensures IsRamp(ps + [p]) && Last(ps + [p]) == p.concurrency && Reports(ps + [p], l) == Reports(ps, l) + [Report(p, l)]
    ensures PassingPrefix(ps + [p], l) ==
              if PassingPrefix(ps, l) < |ps| then PassingPrefix(ps, l) else if Passes(p, l) then |ps| + 1 else |ps|
    ensures Cap(ps + [p], l) == if PassingPrefix(ps, l) == |ps| && Passes(p, l) then Ceiling(p.concurrency, l) else Cap(ps, l)
  {
    hide Ceiling, Passes, Report;
    assert (ps + [p])[..|ps|] == ps;
    var (k, k') := (PassingPrefix(ps, l), PassingPrefix(ps + [p], l));
    PrefixIsUnique(ps + [p], l, if k < |ps| then k else if Passes(p, l) then |ps| + 1 else |ps|);
  }

  lemma PrefixIsUnique(ps: Ramp, l: Limits, k: nat)
    requires k <= |ps| && (forall i :: 0 <= i < k ==> Passes(ps[i], l)) && (k < |ps| ==> !Passes(ps[k], l))
    ensures PassingPrefix(ps, l) == k
  {
  }
}
