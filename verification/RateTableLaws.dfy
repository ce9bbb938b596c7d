/** The rate rows refine the simple history of each tier's pay. */
module RateTableLaws {
  import opened Wrappers
  import opened TextCodec
  import opened RateTable

  // ---- unit conversion -----------------------------------------------------------

  lemma HalfEvenIsNearest(n: int, d: int, q: int, r: int, dq: int)
    requires n == dq + r && 0 <= r < d
    ensures var up := !(2 * r < d || (2 * r == d && q % 2 == 0));
            var (h, hd) := if up then (q + 1, dq + d) else (q, dq);
            && -d <= 2 * (hd - n) <= d
            && (2 * (hd - n) == d || 2 * (n - hd) == d ==> h % 2 == 0)
  {
  }

  lemma RoundIsNearest(n: int, d: int)
    requires d > 0
    ensures var h := RoundHalfEven(n, d);
            && -d <= 2 * (h * d - n) <= d
            && (2 * (h * d - n) == d || 2 * (n - h * d) == d ==> h % 2 == 0)
  {
    var (q, r) := (n / d, n % d);
    HalfEvenIsNearest(n, d, q, r, q * d);
    assert (q + 1) * d == q * d + d;
  }

  /** The hourly figure is the nearest cent, a tie going to the even one. */
  lemma HourlyIsNearest(rate: int, unit: PayUnit)
    ensures var (h, k) := (HourlyEquivalent(rate, unit), HoursIn(unit));
            && -k <= 2 * (h * k - rate) <= k
            && (k > 1 && (2 * (h * k - rate) == k || 2 * (rate - h * k) == k) ==> h % 2 == 0)
  {
    hide RoundHalfEven;
    if HoursIn(unit) > 1 {
      RoundIsNearest(rate, HoursIn(unit));
    }
  }

  /** A higher rate never becomes a lower hourly figure. */
  lemma HourlyIsMonotone(rate: int, higher: int, unit: PayUnit)
    requires rate <= higher
    ensures HourlyEquivalent(rate, unit) <= HourlyEquivalent(higher, unit)
  {
    HourlyIsNearest(rate, unit);
    HourlyIsNearest(higher, unit);
    if rate < higher {
      hide HourlyEquivalent;
      match unit {
        case PerDay =>
        case PerWeek =>
        case PerMonth =>
        case _ =>
      }
    }
  }

  // ---- one tier's rows against one history ----------------------------------------

  predicate Covers(r: Row, name: string, d: int) {
    OfTier(r, name) && r.from <= d && (r.to.None? || d < r.to.value)
  }

  function RateOf(r: Row): (int, string) {
    (r.amount, r.currency)
  }

  /** No two rows of the tier are in force on one day, and at most one is open-ended. */
  ghost predicate Chain(rows: seq<Row>, name: string) {
    && (forall i, j, d :: 0 <= i < j < |rows| && Covers(rows[i], name, d) ==> !Covers(rows[j], name, d))
    && (forall i, j :: 0 <= i < j < |rows| && OpenOf(rows[i], name) ==> !OpenOf(rows[j], name))
  }

  /** Nothing of the tier lies beyond the day `now`, except that an open row goes on. */
  ghost predicate UpTo(rows: seq<Row>, name: string, now: int) {
    forall i :: 0 <= i < |rows| && OfTier(rows[i], name) ==>
      rows[i].from <= now && (rows[i].to.Some? ==> rows[i].from <= rows[i].to.value <= now)
  }

  /** On every day, the row in force, if any, carries the rate of the history. */
  ghost predicate Carries(rows: seq<Row>, name: string, h: seq<Change>) {
    && (forall i, d :: 0 <= i < |rows| && Covers(rows[i], name, d) ==> RateOn(h, d) == Some(RateOf(rows[i])))
    && (forall d :: RateOn(h, d).Some? ==> exists i :: 0 <= i < |rows| && Covers(rows[i], name, d))
  }

  ghost predicate Faithful(rows: seq<Row>, name: string, h: seq<Change>, now: int) {
    Chain(rows, name) && UpTo(rows, name, now) && Carries(rows, name, h)
  }

  lemma NoRowsNoHistory(rows: seq<Row>, name: string, now: int)
    requires forall i :: 0 <= i < |rows| ==> !OfTier(rows[i], name)
    ensures Faithful(rows, name, [], now)
  {
  }

  lemma Later(rows: seq<Row>, name: string, h: seq<Change>, now: int, later: int)
    requires Faithful(rows, name, h, now) && now <= later
    ensures Faithful(rows, name, h, later)
  {
  }

  /** What a sync does when the tier has at most one open row. */
  lemma {:induction false} SyncEffect(rows: seq<Row>, i: nat, name: string, amount: int, currency: string, today: int)
    requires i <= |rows| && Chain(rows, name) && UpTo(rows, name, today)
    requires forall k :: 0 <= k < i ==> !OpenOf(rows[k], name)
    ensures var out := SyncFrom(rows, i, name, amount, currency, today);
            var row := Row(None, Some(name), amount, currency, today, None);
            && (forall k :: 0 <= k < |rows| && OpenOf(rows[k], name) ==>
                  out == if rows[k].from < today then rows[k := rows[k].(to := Some(today))] + [row]
                         else rows[k := rows[k].(amount := amount, currency := currency)])
            && ((forall k :: 0 <= k < |rows| ==> !OpenOf(rows[k], name)) ==> out == rows + [row])
    decreases |rows| - i
  {
    if i < |rows| {
      if OpenOf(rows[i], name) {
        if rows[i].from < today {
          var rows' := rows[i := rows[i].(to := Some(today))];
          NoOpenLeft(rows', i + 1, name, amount, currency, today);
        }
      } else {
        SyncEffect(rows, i + 1, name, amount, currency, today);
      }
    }
  }

  lemma {:induction false} NoOpenLeft(rows: seq<Row>, i: nat, name: string, amount: int, currency: string, today: int)
    requires i <= |rows| && forall k :: i <= k < |rows| ==> !OpenOf(rows[k], name)
    ensures SyncFrom(rows, i, name, amount, currency, today) == rows + [Row(None, Some(name), amount, currency, today, None)]
    decreases |rows| - i
  {
    if i < |rows| {
      NoOpenLeft(rows, i + 1, name, amount, currency, today);
    }
  }

  lemma RateOnNoted(h: seq<Change>, c: Change, d: int)
    ensures RateOn(h + [c], d) == if c.day <= d then c.rate else RateOn(h, d)
  {
    assert (h + [c])[..|h|] == h;
  }

  lemma RateOnNotedAll(h: seq<Change>, c: Change)
    ensures forall d :: RateOn(h + [c], d) == if c.day <= d then c.rate else RateOn(h, d)
  {
    forall d ensures RateOn(h + [c], d) == if c.day <= d then c.rate else RateOn(h, d) {
      RateOnNoted(h, c, d);
    }
  }

  /** Closing the open row, if there is one, ends the rate today. */
  lemma CloseIsFaithful(rows: seq<Row>, name: string, h: seq<Change>, today: int)
    requires Faithful(rows, name, h, today)
    ensures Faithful(Closed(rows, name, today), name, h + [Change(today, None)], today)
    ensures forall i :: 0 <= i < |rows| ==> !OpenOf(Closed(rows, name, today)[i], name)
  {
    hide RateOn;
    RateOnNotedAll(h, Change(today, None));
    var rows' := Closed(rows, name, today);
    forall i, d | 0 <= i < |rows|
      ensures Covers(rows'[i], name, d) <==> Covers(rows[i], name, d) && d < today
      ensures RateOf(rows'[i]) == RateOf(rows[i])
    {
    }
    forall d | RateOn(h + [Change(today, None)], d).Some?
      ensures exists i :: 0 <= i < |rows'| && Covers(rows'[i], name, d)
    {
      var i :| 0 <= i < |rows| && Covers(rows[i], name, d);
      assert Covers(rows'[i], name, d);
    }
  }

  /** A row beginning today on a tier with no open row. */
  lemma AppendIsFaithful(rows: seq<Row>, name: string, h: seq<Change>, h': seq<Change>, amount: int, currency: string, today: int)
    requires Faithful(rows, name, h, today) && (forall i :: 0 <= i < |rows| ==> !OpenOf(rows[i], name))
    requires forall d :: RateOn(h', d) == if today <= d then Some((amount, currency)) else RateOn(h, d)
    ensures Faithful(rows + [Row(None, Some(name), amount, currency, today, None)], name, h', today)
  {
    hide RateOn;
    var rows' := rows + [Row(None, Some(name), amount, currency, today, None)];
    forall d | RateOn(h', d).Some?
      ensures exists i :: 0 <= i < |rows'| && Covers(rows'[i], name, d)
    {
      if today <= d {
        assert Covers(rows'[|rows|], name, d);
      } else {
        var i :| 0 <= i < |rows| && Covers(rows[i], name, d);
        assert Covers(rows'[i], name, d);
      }
    }
    forall i, d | 0 <= i < |rows'| && Covers(rows'[i], name, d)
      ensures i < |rows| ==> d < today
      ensures RateOn(h', d) == Some(RateOf(rows'[i]))
    {
      if i < |rows| {
        assert !OpenOf(rows[i], name);
      }
    }
  }

  /** Correcting the row that began today. */
  lemma CorrectIsFaithful(rows: seq<Row>, k: nat, name: string, h: seq<Change>, h': seq<Change>, amount: int, currency: string, today: int)
    requires Faithful(rows, name, h, today) && k < |rows| && OpenOf(rows[k], name) && rows[k].from == today
    requires forall d :: RateOn(h', d) == if today <= d then Some((amount, currency)) else RateOn(h, d)
    ensures Faithful(rows[k := rows[k].(amount := amount, currency := currency)], name, h', today)
  {
    hide RateOn;
    var rows' := rows[k := rows[k].(amount := amount, currency := currency)];
    forall i, d | 0 <= i < |rows|
      ensures Covers(rows'[i], name, d) <==> Covers(rows[i], name, d)
    {
    }
    forall i, d | 0 <= i < |rows'| && Covers(rows'[i], name, d)
      ensures RateOn(h', d) == Some(RateOf(rows'[i]))
    {
      if today <= d {
        assert Covers(rows[k], name, d);
        assert i == k;
      }
    }
    forall d | RateOn(h', d).Some?
      ensures exists i :: 0 <= i < |rows'| && Covers(rows'[i], name, d)
    {
      if today <= d {
        assert Covers(rows'[k], name, d);
      } else {
        var i :| 0 <= i < |rows| && Covers(rows[i], name, d);
        assert Covers(rows'[i], name, d);
      }
    }
  }

  /** A sync makes the rows mean: from today on, the new rate. */
  lemma SyncIsFaithful(rows: seq<Row>, t: Tier, h: seq<Change>, today: int)
    requires Faithful(rows, t.name, h, today)
    ensures Faithful(Sync(rows, t, today), t.name, h + [Change(today, Some((HourlyEquivalent(t.rate, t.unit), t.currency)))], today)
  {
    hide RateOn, HourlyEquivalent;
    var (amount, name) := (HourlyEquivalent(t.rate, t.unit), t.name);
    var h' := h + [Change(today, Some((amount, t.currency)))];
    RateOnNotedAll(h, Change(today, Some((amount, t.currency))));
    SyncEffect(rows, 0, name, amount, t.currency, today);
    if exists k :: 0 <= k < |rows| && OpenOf(rows[k], name) {
      var k :| 0 <= k < |rows| && OpenOf(rows[k], name);
      if rows[k].from < today {
        CloseIsFaithful(rows, name, h, today);
        var closed := Closed(rows, name, today);
        assert closed == rows[k := rows[k].(to := Some(today))];
        var h1 := h + [Change(today, None)];
        RateOnNotedAll(h, Change(today, None));
        AppendIsFaithful(closed, name, h1, h', amount, t.currency, today);
      } else {
        CorrectIsFaithful(rows, k, name, h, h', amount, t.currency, today);
      }
    } else {
      AppendIsFaithful(rows, name, h, h', amount, t.currency, today);
    }
  }

  // ---- the other tiers ---------------------------------------------------------------

  /** Only rows of the tier changed, and new rows are the tier's. */
  ghost predicate OnlyTier(rows: seq<Row>, rows': seq<Row>, name: string) {
    && |rows| <= |rows'|
    && (forall i :: 0 <= i < |rows| ==> rows'[i] == rows[i] || (OfTier(rows[i], name) && OfTier(rows'[i], name)))
    && (forall i :: |rows| <= i < |rows'| ==> OfTier(rows'[i], name))
  }

  lemma OtherTiersKept(rows: seq<Row>, rows': seq<Row>, name: string, other: string, h: seq<Change>, now: int)
    requires OnlyTier(rows, rows', name) && name != other && Faithful(rows, other, h, now)
    ensures Faithful(rows', other, h, now)
  {
    hide RateOn;
    forall i | 0 <= i < |rows'| && OfTier(rows'[i], other)
      ensures i < |rows| && rows'[i] == rows[i]
    {
    }
    forall d | RateOn(h, d).Some?
      ensures exists i :: 0 <= i < |rows'| && Covers(rows'[i], other, d)
    {
      var i :| 0 <= i < |rows| && Covers(rows[i], other, d);
      assert Covers(rows'[i], other, d);
    }
  }

  lemma {:induction false} SyncOnlyTier(rows: seq<Row>, i: nat, name: string, amount: int, currency: string, today: int)
    requires i <= |rows|
    ensures OnlyTier(rows, SyncFrom(rows, i, name, amount, currency, today), name)
    decreases |rows| - i
  {
    if i < |rows| {
      if OpenOf(rows[i], name) && rows[i].from < today {
        SyncOnlyTier(rows[i := rows[i].(to := Some(today))], i + 1, name, amount, currency, today);
      } else if !(OpenOf(rows[i], name) && rows[i].from == today) {
        SyncOnlyTier(rows, i + 1, name, amount, currency, today);
      }
    }
  }

  // ---- renaming ------------------------------------------------------------------------

  lemma RenameCovers(rows: seq<Row>, old_: string, new_: string, i: nat, d: int)
    requires i < |rows| && old_ != new_
    ensures Covers(Renamed(rows, old_, new_)[i], new_, d) <==> Covers(rows[i], old_, d) || Covers(rows[i], new_, d)
    ensures !Covers(Renamed(rows, old_, new_)[i], old_, d)
    ensures forall other :: other != old_ && other != new_ ==>
              (Covers(Renamed(rows, old_, new_)[i], other, d) <==> Covers(rows[i], other, d))
  {
  }

  /** To a name without rows, the history moves along. */
  lemma RenameIsFaithful(rows: seq<Row>, old_: string, new_: string, h: seq<Change>, now: int)
    requires old_ != new_ && Faithful(rows, old_, h, now) && forall i :: 0 <= i < |rows| ==> !OfTier(rows[i], new_)
    ensures Faithful(Renamed(rows, old_, new_), new_, h, now)
    ensures Faithful(Renamed(rows, old_, new_), old_, [], now)
  {
    hide RateOn;
    var rows' := Renamed(rows, old_, new_);
    forall i, d | 0 <= i < |rows|
      ensures Covers(rows'[i], new_, d) <==> Covers(rows[i], old_, d)
    {
      RenameCovers(rows, old_, new_, i, d);
      assert !OfTier(rows[i], new_);
    }
    forall d | RateOn(h, d).Some?
      ensures exists i :: 0 <= i < |rows'| && Covers(rows'[i], new_, d)
    {
      var i :| 0 <= i < |rows| && Covers(rows[i], old_, d);
      assert Covers(rows'[i], new_, d);
    }
    NoRowsNoHistory(rows', old_, now);
  }

  lemma RenameElsewhere(rows: seq<Row>, old_: string, new_: string, other: string, h: seq<Change>, now: int)
    requires other != old_ && other != new_ && Faithful(rows, other, h, now)
    ensures Faithful(Renamed(rows, old_, new_), other, h, now)
  {
    hide RateOn;
    var rows' := Renamed(rows, old_, new_);
    forall i, d | 0 <= i < |rows|
      ensures Covers(rows'[i], other, d) <==> Covers(rows[i], other, d)
      ensures OfTier(rows'[i], other) ==> rows'[i] == rows[i]
    {
    }
    forall d | RateOn(h, d).Some?
      ensures exists i :: 0 <= i < |rows'| && Covers(rows'[i], other, d)
    {
      var i :| 0 <= i < |rows| && Covers(rows[i], other, d);
      assert Covers(rows'[i], other, d);
    }
  }

  ghost predicate Apart(rows: seq<Row>, a: string, b: string) {
    forall i, j, d :: 0 <= i < |rows| && 0 <= j < |rows| && Covers(rows[i], a, d) ==> !Covers(rows[j], b, d)
  }

  ghost predicate NoDayTwice(rows: seq<Row>, name: string) {
    forall i, j, d :: 0 <= i < j < |rows| && Covers(rows[i], name, d) ==> !Covers(rows[j], name, d)
  }

  /** Onto a name that has rows, the rows stay apart exactly when no day was covered under
      both names; two tiers in force today never are. */
  lemma RenameOntoRows(rows: seq<Row>, old_: string, new_: string)
    requires old_ != new_ && NoDayTwice(rows, old_) && NoDayTwice(rows, new_)
    ensures NoDayTwice(Renamed(rows, old_, new_), new_) <==> Apart(rows, old_, new_)
  {
    var rows' := Renamed(rows, old_, new_);
    forall i, d | 0 <= i < |rows|
      ensures Covers(rows'[i], new_, d) <==> Covers(rows[i], old_, d) || Covers(rows[i], new_, d)
    {
      RenameCovers(rows, old_, new_, i, d);
    }
    if !Apart(rows, old_, new_) {
      var i, j, d :| 0 <= i < |rows| && 0 <= j < |rows| && Covers(rows[i], old_, d) && Covers(rows[j], new_, d);
      assert Covers(rows'[i], new_, d) && Covers(rows'[j], new_, d);
      assert i != j;
    }
  }

  // ---- whole runs ------------------------------------------------------------------------

  ghost predicate AllFaithful(s: State, h: Histories, now: int) {
    forall name :: Faithful(s.rows, name, HistoryOf(h, name), now)
  }

  /** A rename goes to a name that has no rate rows. */
  ghost predicate FreshName(s: State, e: Event) {
    e.OnUpdate? && e.id < |s.tiers| && s.tiers[e.id].Some? ==>
      var (old_, new_) := (s.tiers[e.id].value.name, Patched(s.tiers[e.id].value, e.patch).name);
      old_ != new_ ==> forall i :: 0 <= i < |s.rows| ==> !OfTier(s.rows[i], new_)
  }

  lemma SyncAllFaithful(s: State, h: Histories, t: Tier, today: int)
    requires AllFaithful(s, h, today)
    ensures AllFaithful(s.(rows := Sync(s.rows, t, today)), SyncNoted(h, t, today), today)
  {
    hide HourlyEquivalent, RateOn, Chain, UpTo, Carries, Sync;
    var h' := SyncNoted(h, t, today);
    assert OnlyTier(s.rows, Sync(s.rows, t, today), t.name) by { SyncAppends(s.rows, t, today); }
    SyncIsFaithful(s.rows, t, HistoryOf(h, t.name), today);
    forall name | name != t.name
      ensures Faithful(Sync(s.rows, t, today), name, HistoryOf(h', name), today)
    {
      OtherTiersKept(s.rows, Sync(s.rows, t, today), t.name, name, HistoryOf(h, name), today);
    }
  }

  lemma SyncAppends(rows: seq<Row>, t: Tier, today: int)
    ensures OnlyTier(rows, Sync(rows, t, today), t.name)
  {
    SyncOnlyTier(rows, 0, t.name, HourlyEquivalent(t.rate, t.unit), t.currency, today);
  }

  lemma RenameAllFaithful(s: State, h: Histories, old_: string, new_: string, today: int)
    requires AllFaithful(s, h, today) && old_ != new_ && forall i :: 0 <= i < |s.rows| ==> !OfTier(s.rows[i], new_)
    ensures AllFaithful(s.(rows := Renamed(s.rows, old_, new_)), h[new_ := HistoryOf(h, old_)][old_ := []], today)
  {
    hide RateOn, Chain, UpTo, Carries, Renamed;
    var h' := h[new_ := HistoryOf(h, old_)][old_ := []];
    RenameIsFaithful(s.rows, old_, new_, HistoryOf(h, old_), today);
    forall name | name != old_ && name != new_
      ensures Faithful(Renamed(s.rows, old_, new_), name, HistoryOf(h', name), today)
    {
      RenameElsewhere(s.rows, old_, new_, name, HistoryOf(h, name), today);
    }
  }

  lemma CloseAllFaithful(s: State, h: Histories, name: string, today: int)
    requires AllFaithful(s, h, today)
    ensures AllFaithful(s.(rows := Closed(s.rows, name, today)), Noted(h, name, Change(today, None)), today)
  {
    var rows' := Closed(s.rows, name, today);
    assert OnlyTier(s.rows, rows', name);
    hide RateOn, Chain, UpTo, Carries, Closed;
    var h' := Noted(h, name, Change(today, None));
    CloseIsFaithful(s.rows, name, HistoryOf(h, name), today);
    forall other | other != name
      ensures Faithful(rows', other, HistoryOf(h', other), today)
    {
      OtherTiersKept(s.rows, rows', name, other, HistoryOf(h, other), today);
    }
  }

  lemma StepIsFaithful(s: State, h: Histories, e: Event, now: int, today: int)
    requires AllFaithful(s, h, now) && now <= today && FreshName(s, e)
    ensures AllFaithful(Step(s, e, today).0, Meaning(h, s, e, today), today)
  {
    hide RateOn, Sync, Closed, Renamed, Noted, Faithful, Strip, HourlyEquivalent;
    forall name
      ensures Faithful(s.rows, name, HistoryOf(h, name), today)
    {
      Later(s.rows, name, HistoryOf(h, name), now, today);
    }
    match e {
      case OnCreate(body) =>
        SyncAllFaithful(s, h, body.(name := Strip(body.name)), today);
      case OnDelete(id) =>
        if id < |s.tiers| && s.tiers[id].Some? {
          CloseAllFaithful(s, h, s.tiers[id].value.name, today);
        }
      case OnUpdate(id, p, _, _) =>
        if id < |s.tiers| && s.tiers[id].Some? && Step(s, e, today).1.Ok? {
          var (old_, t) := (s.tiers[id].value, Patched(s.tiers[id].value, p));
          var s1, h1 := s, h;
          if t.name != old_.name {
            RenameAllFaithful(s, h, old_.name, t.name, today);
            s1, h1 := s.(rows := Renamed(s.rows, old_.name, t.name)), h[t.name := HistoryOf(h, old_.name)][old_.name := []];
          }
          SyncAllFaithful(s1, h1, t, today);
        }
    }
  }

  datatype Dated = Dated(e: Event, today: int)

  function Run(s: State, es: seq<Dated>): State
    decreases |es|
  {
    if es == [] then s else Run(Step(s, es[0].e, es[0].today).0, es[1..])
  }

  function MeaningOf(h: Histories, s: State, es: seq<Dated>): Histories
    decreases |es|
  {
    if es == [] then h
    else MeaningOf(Meaning(h, s, es[0].e, es[0].today), Step(s, es[0].e, es[0].today).0, es[1..])
  }

  /** Days never go back, and renames go to fresh names. */
  ghost predicate Legal(s: State, es: seq<Dated>, now: int)
    decreases |es|
  {
    es != [] ==> now <= es[0].today && FreshName(s, es[0].e) && Legal(Step(s, es[0].e, es[0].today).0, es[1..], es[0].today)
  }

  lemma {:induction false} RunIsFaithful(s: State, h: Histories, es: seq<Dated>, now: int)
    requires AllFaithful(s, h, now) && Legal(s, es, now)
    ensures exists end :: end >= now && AllFaithful(Run(s, es), MeaningOf(h, s, es), end)
    decreases |es|
  {
    hide Step, Meaning, AllFaithful, FreshName;
    if es == [] {
      assert now >= now && AllFaithful(Run(s, es), MeaningOf(h, s, es), now);
    } else {
      StepIsFaithful(s, h, es[0].e, now, es[0].today);
      var (s', h') := (Step(s, es[0].e, es[0].today).0, Meaning(h, s, es[0].e, es[0].today));
      RunIsFaithful(s', h', es[1..], es[0].today);
      var end :| end >= es[0].today && AllFaithful(Run(s', es[1..]), MeaningOf(h', s', es[1..]), end);
      assert end >= now && AllFaithful(Run(s, es), MeaningOf(h, s, es), end);
    }
  }

  /** The refinement. After any legal run, on every day, a tier's rows answer what its history
      answers: no two rows are in force, at most one is open-ended, the row in force carries
      the rate of the last sync on or before that day, and there is none where the history has
      none, as after a deletion until the next sync. */
  lemma RowsRefineHistory(es: seq<Dated>, start: int, name: string)
    requires Legal(State([], []), es, start)
    ensures var (rows, h) := (Run(State([], []), es).rows, HistoryOf(MeaningOf(map[], State([], []), es), name));
            && Chain(rows, name)
            && (forall i, d :: 0 <= i < |rows| && Covers(rows[i], name, d) ==> RateOn(h, d) == Some(RateOf(rows[i])))
            && (forall d :: RateOn(h, d).Some? ==> exists i :: 0 <= i < |rows| && Covers(rows[i], name, d))
  {
    var s0 := State([], []);
    assert AllFaithful(s0, map[], start);
    RunIsFaithful(s0, map[], es, start);
  }

  // ---- what each call does to the catalog ----------------------------------------------------

  /** No other tier has the name. */
  predicate NameFree(tiers: seq<Option<Tier>>, name: string, except: Option<nat>) {
    forall i :: 0 <= i < |tiers| && Some(i) != except && tiers[i].Some? ==> tiers[i].value.name != name
  }

  /** A creation is accepted exactly with a nonblank free name and a positive rate, and stores
      the tier that was sent. */
  lemma CreateIsWhatWasSent(s: State, body: Tier, today: int)
    ensures var (s', r) := CreateTier(s, body, today);
            && (r.Ok? <==> Strip(body.name) != "" && body.rate > 0 && NameFree(s.tiers, Strip(body.name), None))
            && (r.Err? ==> s' == s)
            && (r.Ok? ==> s'.tiers == s.tiers + [Some(Tier(Strip(body.name), body.currency, body.rate, body.unit, body.active, body.scope))]
                          && (body.scope == Clients ==> s'.rows == s.rows))
  {
    hide Sync, Strip;
  }

  /** The column after a PATCH, stated from the field alone. */
  predicate Column<T(==)>(f: Field<T>, before: T, after: T) {
    (f.Set? ==> after == f.value) && (f.Unset? ==> after == before) && !f.Null?
  }

  /** An update is accepted exactly for a known tier, no null, a free name, a positive rate if
      one is sent, and a scope that no one in use contradicts; and then every column has the
      value sent, or the old one if it was left out. */
  lemma UpdateIsWhatWasSent(s: State, id: nat, p: Patch, clientsUse: bool, membersUse: bool, today: int)
    ensures var (s', r) := UpdateTier(s, id, p, clientsUse, membersUse, today);
            && (r.Err? ==> s' == s)
            && (r.Ok? <==>
                  && id < |s.tiers| && s.tiers[id].Some?
                  && p.name != Null && p.currency != Null && p.rate != Null && p.unit != Null && p.active != Null && p.scope != Null
                  && NameFree(s.tiers, if p.name.Set? then Strip(p.name.value) else s.tiers[id].value.name, Some(id))
                  && (p.rate.Set? ==> p.rate.value > 0)
                  && !(p.scope == Set(Workers) && clientsUse) && !(p.scope == Set(Clients) && membersUse))
            && (r.Ok? ==>
                  && |s'.tiers| == |s.tiers| && s'.tiers[id].Some?
                  && (forall i :: 0 <= i < |s.tiers| && i != id ==> s'.tiers[i] == s.tiers[i])
                  && var (old_, new_) := (s.tiers[id].value, s'.tiers[id].value);
                     && new_.name == (if p.name.Set? then Strip(p.name.value) else old_.name)
                     && Column(p.currency, old_.currency, new_.currency) && Column(p.rate, old_.rate, new_.rate)
                     && Column(p.unit, old_.unit, new_.unit) && Column(p.active, old_.active, new_.active)
                     && Column(p.scope, old_.scope, new_.scope))
  {
    hide Sync, Renamed, Strip;
  }

  /** An accepted update carries every row of the old name, tier rows and workers' own alike, to
      the new name, renames no other, and adds at most one row. */
  lemma UpdateRenamesRows(s: State, id: nat, p: Patch, clientsUse: bool, membersUse: bool, today: int)
    requires UpdateTier(s, id, p, clientsUse, membersUse, today).1.Ok?
    ensures id < |s.tiers| && s.tiers[id].Some?
    ensures var s' := UpdateTier(s, id, p, clientsUse, membersUse, today).0;
            var (old_, new_) := (s.tiers[id].value.name, if p.name.Set? then Strip(p.name.value) else s.tiers[id].value.name);
            && |s.rows| <= |s'.rows|
            && forall i :: 0 <= i < |s.rows| ==>
                 s'.rows[i].tier == (if s.rows[i].tier == Some(old_) then Some(new_) else s.rows[i].tier)
                 && s'.rows[i].worker == s.rows[i].worker
  {
    hide Sync, Strip, HourlyEquivalent;
    var t := Patched(s.tiers[id].value, p);
    var rows := if t.name != s.tiers[id].value.name then Renamed(s.rows, s.tiers[id].value.name, t.name) else s.rows;
    SyncAppends(rows, t, today);
  }

  /** A deletion removes the tier, closes its open rows today, and changes nothing else. */
  lemma DeleteIsExact(s: State, id: nat, today: int)
    ensures var (s', r) := DeleteTier(s, id, today);
            && (r.Ok? <==> id < |s.tiers| && s.tiers[id].Some?)
            && (r.Err? ==> s' == s)
            && (r.Ok? ==>
                  && |s'.tiers| == |s.tiers| && s'.tiers[id].None?
                  && (forall i :: 0 <= i < |s.tiers| && i != id ==> s'.tiers[i] == s.tiers[i])
                  && |s'.rows| == |s.rows|
                  && forall i :: 0 <= i < |s.rows| ==>
                       s'.rows[i] == if s.rows[i].worker == None && s.rows[i].tier == Some(s.tiers[id].value.name) && s.rows[i].to == None
                                     then s.rows[i].(to := Some(today)) else s.rows[i])
  {
  }

  ghost predicate NamesUnique(s: State) {
    forall i, j :: 0 <= i < j < |s.tiers| && s.tiers[i].Some? && s.tiers[j].Some? ==> s.tiers[i].value.name != s.tiers[j].value.name
  }

  /** In every run the names of the tiers are different. */
  lemma {:induction false} TierNamesStayUnique(s: State, es: seq<Dated>)
    requires NamesUnique(s)
    ensures NamesUnique(Run(s, es))
    decreases |es|
  {
    if es != [] {
      hide Sync, Renamed, Strip;
      var s' := Step(s, es[0].e, es[0].today).0;
      assert NamesUnique(s');
      TierNamesStayUnique(s', es[1..]);
    }
  }

  /** A rate change takes effect: after an accepted update that leaves an active tier for
      workers, exactly one row is in force on each day from today on, and it carries the hourly
      figure of the rate, unit and currency that the tier then has. */
  lemma UpdateSetsTheRate(s: State, h: Histories, id: nat, p: Patch, clientsUse: bool, membersUse: bool, now: int, today: int, d: int)
    requires AllFaithful(s, h, now) && now <= today <= d && FreshName(s, OnUpdate(id, p, clientsUse, membersUse))
    requires var (s', r) := UpdateTier(s, id, p, clientsUse, membersUse, today);
             r.Ok? && s'.tiers[id].Some? && s'.tiers[id].value.active && s'.tiers[id].value.scope != Clients
    ensures var s' := UpdateTier(s, id, p, clientsUse, membersUse, today).0;
            var t := s'.tiers[id].value;
            exists i :: 0 <= i < |s'.rows| && Covers(s'.rows[i], t.name, d)
                        && RateOf(s'.rows[i]) == (HourlyEquivalent(t.rate, t.unit), t.currency)
                        && forall j :: 0 <= j < |s'.rows| && j != i ==> !Covers(s'.rows[j], t.name, d)
  {
    var e := OnUpdate(id, p, clientsUse, membersUse);
    var s' := UpdateTier(s, id, p, clientsUse, membersUse, today).0;
    var t := s'.tiers[id].value;
    StepIsFaithful(s, h, e, now, today);
    UpdateIsWhatWasSent(s, id, p, clientsUse, membersUse, today);
    var before := UpdatedHistory(s, h, e, today);
    RateOnNoted(before, Change(today, Some((HourlyEquivalent(t.rate, t.unit), t.currency))), d);
    OneRowInForce(s'.rows, t.name, HistoryOf(Meaning(h, s, e, today), t.name), today, d);
  }

  lemma UpdatedHistory(s: State, h: Histories, e: Event, today: int) returns (before: seq<Change>)
    requires e.OnUpdate? && Step(s, e, today).1.Ok? && e.id < |s.tiers| && s.tiers[e.id].Some?
    requires e.id < |Step(s, e, today).0.tiers| && Step(s, e, today).0.tiers[e.id].Some?
    requires var t := Step(s, e, today).0.tiers[e.id].value; t.active && t.scope != Clients
    ensures var t := Step(s, e, today).0.tiers[e.id].value;
            HistoryOf(Meaning(h, s, e, today), t.name) == before + [Change(today, Some((HourlyEquivalent(t.rate, t.unit), t.currency)))]
  {
    hide Sync, Renamed, Strip, HourlyEquivalent;
    var (old_, t) := (s.tiers[e.id].value, Step(s, e, today).0.tiers[e.id].value);
    before := HistoryOf(h, old_.name);
  }

  lemma OneRowInForce(rows: seq<Row>, name: string, h: seq<Change>, now: int, d: int)
    requires Faithful(rows, name, h, now) && RateOn(h, d).Some?
    ensures exists i :: 0 <= i < |rows| && Covers(rows[i], name, d) && RateOf(rows[i]) == RateOn(h, d).value
                        && forall j :: 0 <= j < |rows| && j != i ==> !Covers(rows[j], name, d)
  {
    hide RateOn;
    var i :| 0 <= i < |rows| && Covers(rows[i], name, d);
  }

  // ---- single entries ----------------------------------------------------------------------

  predicate InForce(r: Row, o: Owner, d: int) {
    Owns(o, r) && r.from <= d && (r.to.None? || d < r.to.value)
  }

  ghost predicate OwnerChain(rows: seq<Row>, o: Owner) {
    && (forall i, j, d :: 0 <= i < j < |rows| && InForce(rows[i], o, d) ==> !InForce(rows[j], o, d))
    && (forall i, j :: 0 <= i < j < |rows| && Owns(o, rows[i]) && rows[i].to.None? ==> !(Owns(o, rows[j]) && rows[j].to.None?))
  }

  /** A new entry is accepted exactly with an owner, a positive amount and a reason. It is stored
      as sent; the owner's open entries that began before it end on the day it begins; and
      nothing else changes. */
  lemma EntryIsWhatWasSent(rows: seq<Row>, worker: Option<nat>, tier: Option<string>, amount: int, currency: string,
                           from: int, to: Option<int>, reason: string)
    ensures var (rows', r) := CreateRate(rows, worker, tier, amount, currency, from, to, reason);
            && (r.Ok? <==> (worker.Some? || (tier.Some? && tier.value != "")) && amount > 0 && Strip(reason) != "")
            && (r.Err? ==> rows' == rows)
            && (r.Ok? ==>
                  && |rows'| == |rows| + 1
                  && rows'[|rows|] == Row(worker, tier, amount, currency, from, to)
                  && forall i :: 0 <= i < |rows| ==>
                       rows'[i] == if rows[i].to == None && rows[i].from < from
                                      && rows[i].worker == worker && (worker.Some? || rows[i].tier == tier)
                                   then rows[i].(to := Some(from)) else rows[i])
  {
    hide Strip;
  }

  predicate Empty(from: int, to: Option<int>) {
    to.Some? && to.value <= from
  }

  /** Neither window is open beyond the start of the other, unless one of them is empty. */
  predicate WindowsApart(from: int, to: Option<int>, from': int, to': Option<int>) {
    Empty(from, to) || Empty(from', to') || (to.Some? && to.value <= from') || (to'.Some? && to'.value <= from)
  }

  /** The owner's open entry begins before `from`, and so will be closed, or the new window
      ends by its start; and the new window keeps apart from every closed entry. */
  ghost predicate Fits(rows: seq<Row>, o: Owner, from: int, to: Option<int>) {
    forall i :: 0 <= i < |rows| && Owns(o, rows[i]) ==>
      (rows[i].to.None? && rows[i].from < from) || WindowsApart(rows[i].from, rows[i].to, from, to)
  }

  lemma ApartIff(r: Row, r': Row, o: Owner)
    requires Owns(o, r) && Owns(o, r')
    ensures WindowsApart(r.from, r.to, r'.from, r'.to) <==> forall d :: InForce(r, o, d) ==> !InForce(r', o, d)
  {
    if !WindowsApart(r.from, r.to, r'.from, r'.to) {
      var d := Max(r.from, r'.from);
      assert InForce(r, o, d) && InForce(r', o, d);
    }
  }

  /** A new entry, with an end or without, keeps its owner's chain exactly when it fits: so an
      open-ended one exactly when it begins after the open entry and not before any closed one
      ends, and one with an end must not reach into another either. */
  lemma EntryKeepsChainIff(rows: seq<Row>, o: Owner, amount: int, currency: string, from: int, to: Option<int>, reason: string)
    requires OwnerChain(rows, o) && amount > 0 && Strip(reason) != "" && (o.OfTierNamed? ==> o.name != "")
    ensures var (worker, tier) := match o case OfWorker(id) => (Some(id), None) case OfTierNamed(name) => (None, Some(name));
            OwnerChain(CreateRate(rows, worker, tier, amount, currency, from, to, reason).0, o) <==> Fits(rows, o, from, to)
  {
    hide Strip;
    var (worker, tier) := match o case OfWorker(id) => (Some(id), None) case OfTierNamed(name) => (None, Some(name));
    var row := Row(worker, tier, amount, currency, from, to);
    var closed := ClosedBefore(rows, o, from);
    assert CreateRate(rows, worker, tier, amount, currency, from, to, reason).0 == closed + [row];
    hide CreateRate;
    ClosingKeepsChain(rows, o, from);
    FitsOnceClosed(rows, o, from, to);
    AddingKeepsChainIff(closed, o, row);
  }

  lemma ClosingKeepsChain(rows: seq<Row>, o: Owner, from: int)
    requires OwnerChain(rows, o)
    ensures OwnerChain(ClosedBefore(rows, o, from), o)
  {
    var closed := ClosedBefore(rows, o, from);
    forall i, d | 0 <= i < |rows| && InForce(closed[i], o, d)
      ensures InForce(rows[i], o, d)
    {
    }
  }

  ghost predicate ApartFromAll(rows: seq<Row>, o: Owner, from: int, to: Option<int>) {
    forall i :: 0 <= i < |rows| && Owns(o, rows[i]) ==> WindowsApart(rows[i].from, rows[i].to, from, to)
  }

  lemma FitsOnceClosed(rows: seq<Row>, o: Owner, from: int, to: Option<int>)
    ensures Fits(rows, o, from, to) <==> ApartFromAll(ClosedBefore(rows, o, from), o, from, to)
  {
    var closed := ClosedBefore(rows, o, from);
    forall i | 0 <= i < |rows| && Owns(o, rows[i])
      ensures Owns(o, closed[i])
      ensures (rows[i].to.None? && rows[i].from < from) || WindowsApart(rows[i].from, rows[i].to, from, to)
              <==> WindowsApart(closed[i].from, closed[i].to, from, to)
    {
    }
    forall i | 0 <= i < |rows| && Owns(o, closed[i])
      ensures Owns(o, rows[i])
    {
    }
  }

  lemma AddingKeepsChainIff(rows: seq<Row>, o: Owner, row: Row)
    requires OwnerChain(rows, o) && Owns(o, row)
    ensures OwnerChain(rows + [row], o) <==> ApartFromAll(rows, o, row.from, row.to)
  {
    hide InForce, WindowsApart;
    var (all, n) := (rows + [row], |rows|);
    if ApartFromAll(rows, o, row.from, row.to) {
      forall i, d | 0 <= i < n && InForce(all[i], o, d)
        ensures !InForce(all[n], o, d)
      {
        InForceIsOwned(rows[i], o, d);
        ApartIff(rows[i], row, o);
      }
      forall i | 0 <= i < n && Owns(o, rows[i]) && rows[i].to.None?
        ensures row.to.Some?
      {
        OpenOverlapsOpen(rows[i], row);
      }
    } else {
      var i :| 0 <= i < n && Owns(o, rows[i]) && !WindowsApart(rows[i].from, rows[i].to, row.from, row.to);
      ApartIff(rows[i], row, o);
      var d :| InForce(rows[i], o, d) && InForce(row, o, d);
      assert InForce(all[i], o, d) && InForce(all[n], o, d);
    }
  }

  lemma InForceIsOwned(r: Row, o: Owner, d: int)
    requires InForce(r, o, d)
    ensures Owns(o, r)
  {
  }

  lemma OpenOverlapsOpen(r: Row, r': Row)
    requires r.to.None? && WindowsApart(r.from, r.to, r'.from, r'.to)
    ensures r'.to.Some?
  {
  }
}
