/** The recommended cap: what it rests on, that it is the best, and what never lowers it. */
module CapacityLaws {
  import opened Wrappers
  import opened Capacity

  lemma FloorKeepsOrder(x: real, y: real)
    requires x <= y
    ensures x.Floor <= y.Floor
  {
  }

  lemma MoreSessions(c: int, d: int, r: real, r': real)
    requires 0 <= c <= d && r' <= r <= 1.0
    ensures c as real * (1.0 - r) <= d as real * (1.0 - r')
  {
    var (gap, left, freed) := (d as real - c as real, 1.0 - r', r - r');
    assert gap * left >= 0.0 && c as real * freed >= 0.0;
    assert d as real * left == c as real * (1.0 - r) + c as real * freed + gap * left;
  }

  /** A bigger stage or a smaller reserve never supports fewer sessions. */
  lemma CeilingGrows(c: int, d: int, l: Limits, l': Limits)
    requires 0 <= c <= d && l'.reserve <= l.reserve <= 1.0
    ensures 0 <= Ceiling(c, l).GetOr(0) <= Ceiling(d, l').GetOr(0)
  {
    MoreSessions(c, d, l.reserve, l'.reserve);
    MoreSessions(0, c, l.reserve, l.reserve);
    FloorKeepsOrder(c as real * (1.0 - l.reserve), d as real * (1.0 - l'.reserve));
  }

  /** `n` sessions are what `c` leave after the reserve, rounded down. */
  predicate LeftOf(n: int, c: int, l: Limits) {
    n as real <= c as real * (1.0 - l.reserve) < n as real + 1.0
  }

  lemma CeilingIsLeft(c: int, l: Limits)
    requires Ceiling(c, l).Some?
    ensures LeftOf(Ceiling(c, l).value, c, l) && Ceiling(c, l).value != 0
  {
  }

  /** A recommended cap rests on a measured stage: it and every smaller stage passed, and the
      cap, never zero, is what is left of it after the reserve. */
  lemma CapIsEarned(ps: Ramp, l: Limits)
    requires Cap(ps, l).Some?
    ensures Cap(ps, l).value != 0
    ensures exists i :: 0 <= i < |ps| && LeftOf(Cap(ps, l).value, ps[i].concurrency, l)
                        && forall j :: 0 <= j < |ps| && ps[j].concurrency <= ps[i].concurrency ==> Passes(ps[j], l)
  {
    var i := PassingPrefix(ps, l) - 1;
    CeilingIsLeft(ps[i].concurrency, l);
    hide Passes, Ceiling, PassingPrefix, LeftOf;
    assert forall j :: 0 <= j < |ps| && ps[j].concurrency <= ps[i].concurrency ==> j <= i;
    assert LeftOf(Cap(ps, l).value, ps[i].concurrency, l);
  }

  /** No stage that passed together with every stage before it supports more. */
  lemma CapIsBest(ps: Ramp, l: Limits, i: nat)
    requires i < |ps| && (forall j :: 0 <= j <= i ==> Passes(ps[j], l)) && l.reserve <= 1.0
    ensures Ceiling(ps[i].concurrency, l).GetOr(0) <= Cap(ps, l).GetOr(0)
  {
    hide Passes, Ceiling;
    var k := PassingPrefix(ps, l);
    CeilingGrows(ps[i].concurrency, ps[k - 1].concurrency, l, l);
  }

  /** After the first stage that fails, further measurements change nothing. */
  lemma LaterStagesNeverMatter(ps: Ramp, more: seq<Plateau>, l: Limits)
    requires IsRamp(ps + more) && PassingPrefix(ps, l) < |ps|
    ensures Cap(ps + more, l) == Cap(ps, l)
  {
    hide Passes, Ceiling;
    PrefixIsUnique(ps + more, l, PassingPrefix(ps, l));
  }

  /** A further stage that passes never lowers the cap. */
  lemma PassingStageNeverLowers(ps: Ramp, p: Plateau, l: Limits)
    requires IsRamp(ps + [p]) && PassingPrefix(ps, l) == |ps| && Passes((ps + [p])[|ps|], l) && l.reserve <= 1.0
    ensures Cap(ps, l).GetOr(0) <= Cap(ps + [p], l).GetOr(0)
  {
    hide Passes, Ceiling;
    PrefixIsUnique(ps + [p], l, |ps| + 1);
    assert forall i :: 0 <= i < |ps| ==> (ps + [p])[i] == ps[i];
    assert ps != [] ==> (ps + [p])[|ps| - 1].concurrency < (ps + [p])[|ps|].concurrency;
    CeilingGrows(Last(ps), p.concurrency, l, l);
  }

  /** Every limit of l' is as generous as that of l. */
  predicate Laxer(l: Limits, l': Limits) {
    && l'.minSteady <= l.minSteady && l.firstFrame <= l'.firstFrame && l.reconnect <= l'.reconnect
    && l.maxCpu <= l'.maxCpu && l.maxMemory <= l'.maxMemory && l.maxFailureRate <= l'.maxFailureRate
    && l.maxDrops <= l'.maxDrops && l'.reserve <= l.reserve
  }

  lemma LaxerPasses(p: Plateau, l: Limits, l': Limits)
    requires Sane(p) && Laxer(l, l') && Passes(p, l)
    ensures Passes(p, l')
  {
    forall c | c in Checks()
      ensures Holds(c, p, l')
    {
      assert Holds(c, p, l);
    }
  }

  /** Relaxing any of the limits, or keeping less in reserve, never lowers the cap. */
  lemma RelaxingNeverLowers(ps: Ramp, l: Limits, l': Limits)
    requires Laxer(l, l') && l.reserve <= 1.0
    ensures Cap(ps, l).GetOr(0) <= Cap(ps, l').GetOr(0)
  {
    hide Passes, Ceiling;
    var (k, k') := (PassingPrefix(ps, l), PassingPrefix(ps, l'));
    if k' < k {
      LaxerPasses(ps[k'], l, l');
    }
    if k > 0 {
      CeilingGrows(ps[k - 1].concurrency, ps[k' - 1].concurrency, l, l');
    } else if k' > 0 {
      CeilingGrows(0, ps[k' - 1].concurrency, l', l');
    }
  }

  /** Row i is well formed and measures more sessions than the row before it. */
  predicate Acceptable(rows: seq<Row>, i: nat)
    requires i < |rows|
  {
    Read(rows[i], if i == 0 then 0 else rows[i - 1].concurrency.GetOr(0)).Ok?
  }

  /** Measurements are accepted exactly when every row is, and then they form a ramp. */
  lemma {:induction false} MeasurementsAcceptedIff(rows: seq<Row>)
    ensures ReadAll(rows).Ok? <==> forall i :: 0 <= i < |rows| ==> Acceptable(rows, i)
    ensures ReadAll(rows).Ok? ==> IsRamp(ReadAll(rows).value)
                                  && (rows != [] ==> rows[|rows| - 1].concurrency == Some(Last(ReadAll(rows).value)))
  {
    if rows != [] {
      var front := rows[..|rows| - 1];
      MeasurementsAcceptedIff(front);
      ReadOk(rows[|rows| - 1], if |rows| == 1 then 0 else rows[|rows| - 2].concurrency.GetOr(0));
      hide Read;
      assert forall i :: 0 <= i < |front| ==> Acceptable(front, i) == Acceptable(rows, i);
      assert ReadAll(front).Ok? <==> forall i :: 0 <= i < |front| ==> Acceptable(rows, i);
      assert ReadAll(front).Ok? ==> (ReadAll(rows).Ok? <==> Acceptable(rows, |rows| - 1));
      if ReadAll(front).Ok? {
        assert Last(ReadAll(front).value) == if |rows| == 1 then 0 else rows[|rows| - 2].concurrency.GetOr(0);
      }
    }
  }

  lemma ReadOk(row: Row, previous: int)
    ensures Read(row, previous).Ok? ==> Sane(Read(row, previous).value) && row.concurrency == Some(Read(row, previous).value.concurrency)
                                        && Read(row, previous).value.concurrency > previous
  {
  }

  // ---- the rules of one row ----------------------------------------------------------------

  /** A row is accepted exactly if its counts are counts, there are more sessions than before and
      at least as many attempts and reconnects as sessions, no more failures than attempts,
      every measurement positive, and the percentages at most 100. */
  lemma RowIsAcceptedIff(row: Row, previous: int)
    ensures Read(row, previous).Ok?
            <==> && row.concurrency.Some? && row.attempts.Some? && row.failures.Some? && row.reconnects.Some?
                 && row.reconnectFailures.Some? && row.drops.Some?
                 && row.minutes.Some? && row.duration.Some? && row.firstFrame.Some? && row.reconnect.Some?
                 && row.cpu.Some? && row.memory.Some?
                 && 1 <= row.concurrency.value && previous < row.concurrency.value
                 && row.concurrency.value <= row.attempts.value && row.concurrency.value <= row.reconnects.value
                 && 0 <= row.failures.value <= row.attempts.value && 0 <= row.reconnectFailures.value <= row.reconnects.value
                 && 0 <= row.drops.value
                 && 0.0 < row.minutes.value && 0.0 < row.duration.value && 0.0 < row.firstFrame.value && 0.0 < row.reconnect.value
                 && 0.0 < row.cpu.value <= 100.0 && 0.0 < row.memory.value <= 100.0
  {
  }

  /** And it is read as it stands. */
  lemma RowIsRead(row: Row, previous: int)
    requires Read(row, previous).Ok?
    ensures var p := Read(row, previous).value;
            row == Row(Some(p.concurrency), Some(p.attempts), Some(p.failures), Some(p.reconnects), Some(p.reconnectFailures),
                       Some(p.minutes), Some(p.duration), Some(p.firstFrame), Some(p.reconnect), Some(p.drops), Some(p.cpu), Some(p.memory))
  {
  }

  /** `count` is at most the given share of `total`. */
  predicate AtMostShare(count: real, share: real, total: real) {
    count <= share * total
  }

  lemma RatioIsShare(a: real, b: real, r: real)
    requires b > 0.0
    ensures a / b <= r <==> AtMostShare(a, r, b)
  {
    var q := a / b;
    assert q * b == a;
    if q <= r {
      assert (r - q) * b >= 0.0;
      assert (r - q) * b == r * b - q * b;
    } else {
      assert (q - r) * b > 0.0;
      assert (q - r) * b == q * b - r * b;
    }
  }

  lemma ConnectsIff(p: Plateau, l: Limits)
    requires Sane(p)
    ensures Holds(Connects, p, l) <==> AtMostShare(p.failures as real, l.maxFailureRate, p.attempts as real)
  {
    RatioIsShare(p.failures as real, p.attempts as real, l.maxFailureRate);
  }

  lemma ReconnectsIff(p: Plateau, l: Limits)
    requires Sane(p)
    ensures Holds(Reconnects, p, l) <==> AtMostShare(p.reconnectFailures as real, l.maxFailureRate, p.reconnects as real)
  {
    RatioIsShare(p.reconnectFailures as real, p.reconnects as real, l.maxFailureRate);
  }

  lemma DropsIff(p: Plateau, l: Limits)
    requires Sane(p)
    ensures Holds(Drops, p, l) <==> AtMostShare(p.drops as real, l.maxDrops, p.minutes / 60.0)
  {
    RatioIsShare(p.drops as real, p.minutes / 60.0, l.maxDrops);
  }

  lemma ThresholdsIff(p: Plateau, l: Limits)
    requires Sane(p)
    ensures Holds(Soak, p, l) <==> p.duration >= l.minSteady
    ensures Holds(Exposure, p, l) <==> p.minutes >= p.concurrency as real * p.duration
    ensures Holds(FirstFrame, p, l) <==> p.firstFrame <= l.firstFrame
    ensures Holds(ReconnectLatency, p, l) <==> p.reconnect <= l.reconnect
    ensures Holds(Cpu, p, l) <==> p.cpu <= l.maxCpu
    ensures Holds(Memory, p, l) <==> p.memory <= l.maxMemory
  {
  }

  /** The stage's checks, without a quotient: soaked long enough, with all its sessions all the
      time; connections and reconnections failing at most at the allowed rate; both latencies,
      processor and memory within their limits; and at most the allowed number of drops for
      each hour of session. */
  lemma StagePassesIff(p: Plateau, l: Limits)
    requires Sane(p)
    ensures Passes(p, l)
            <==> && p.duration >= l.minSteady && p.minutes >= p.concurrency as real * p.duration
                 && AtMostShare(p.failures as real, l.maxFailureRate, p.attempts as real)
                 && AtMostShare(p.reconnectFailures as real, l.maxFailureRate, p.reconnects as real)
                 && p.firstFrame <= l.firstFrame && p.reconnect <= l.reconnect
                 && AtMostShare(p.drops as real, l.maxDrops, p.minutes / 60.0)
                 && p.cpu <= l.maxCpu && p.memory <= l.maxMemory
  {
    hide Holds, Passes, AtMostShare;
    NineChecks(p, l);
    ThresholdsIff(p, l);
    ConnectsIff(p, l);
    ReconnectsIff(p, l);
    DropsIff(p, l);
  }

  lemma NineChecks(p: Plateau, l: Limits)
    requires Sane(p)
    ensures Passes(p, l)
            <==> Holds(Soak, p, l) && Holds(Exposure, p, l) && Holds(Connects, p, l) && Holds(Reconnects, p, l) && Holds(FirstFrame, p, l)
                 && Holds(ReconnectLatency, p, l) && Holds(Drops, p, l) && Holds(Cpu, p, l) && Holds(Memory, p, l)
  {
    hide Holds;
    var cs := Checks();
    assert Soak == cs[0] && Exposure == cs[1] && Connects == cs[2] && Reconnects == cs[3] && FirstFrame == cs[4]
           && ReconnectLatency == cs[5] && Drops == cs[6] && Cpu == cs[7] && Memory == cs[8];
    if Holds(Soak, p, l) && Holds(Exposure, p, l) && Holds(Connects, p, l) && Holds(Reconnects, p, l) && Holds(FirstFrame, p, l)
       && Holds(ReconnectLatency, p, l) && Holds(Drops, p, l) && Holds(Cpu, p, l) && Holds(Memory, p, l) {
      forall c | c in cs
        ensures Holds(c, p, l)
      {
        match c {
          case _ =>
        }
      }
    }
  }
}
