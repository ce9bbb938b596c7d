/** Effective-dated pay rates: payment tiers and the rate rows they keep in step,
    backend/routers/payment_tiers.py, and single entries, backend/routers/rates.py. Days are
    integers, money is in cents. Rows are never deleted; a deleted tier is None. */
module RateTable {
  import opened Wrappers
  import opened TextCodec

  datatype PayUnit = PerHour | PerDay | PerWeek | PerMonth | PerTask

  /** The multiple of 1/d nearest to n/d, a tie going to the even one (Decimal.quantize). */
  function RoundHalfEven(n: int, d: int): int
    requires d > 0
  {
    var (q, r) := (n / d, n % d);
    if 2 * r < d || (2 * r == d && q % 2 == 0) then q else q + 1
  }

  function HoursIn(unit: PayUnit): int {
    match unit
    case PerDay => 8
    case PerWeek => 40
    case PerMonth => 160
    case _ => 1
  }

  function HourlyEquivalent(rate: int, unit: PayUnit): int {
    match unit
    case PerHour => rate
    case PerDay => RoundHalfEven(rate, 8)
    case PerWeek => RoundHalfEven(rate, 40)
    case PerMonth => RoundHalfEven(rate, 160)
    case PerTask => rate
  }

  datatype Scope = Workers | Clients | Both

  datatype Tier = Tier(name: string, currency: string, rate: int, unit: PayUnit, active: bool, scope: Scope)

  /** A rate in force on the days from `from` on, before `to` if that is set. */
  datatype Row = Row(worker: Option<nat>, tier: Option<string>, amount: int, currency: string, from: int, to: Option<int>)

  datatype State = State(tiers: seq<Option<Tier>>, rows: seq<Row>)

  datatype Error = BadRequest | NotFound | DatabaseError

  type Answer = Result<(), Error>

  predicate ForWorkers(t: Tier) {
    t.scope != Clients
  }

  predicate OfTier(r: Row, name: string) {
    r.worker.None? && r.tier == Some(name)
  }

  predicate OpenOf(r: Row, name: string) {
    OfTier(r, name) && r.to.None?
  }

  /** _sync_rate_table from row `i` on: open rows of the tier that began earlier are closed, one
      that began today is corrected in place, and otherwise a new row begins today. */
  function SyncFrom(rows: seq<Row>, i: nat, name: string, amount: int, currency: string, today: int): seq<Row>
    requires i <= |rows|
    decreases |rows| - i
  {
    if i == |rows| then rows + [Row(None, Some(name), amount, currency, today, None)]
    else if OpenOf(rows[i], name) && rows[i].from < today then
      SyncFrom(rows[i := rows[i].(to := Some(today))], i + 1, name, amount, currency, today)
    else if OpenOf(rows[i], name) && rows[i].from == today then
      rows[i := rows[i].(amount := amount, currency := currency)]
    else SyncFrom(rows, i + 1, name, amount, currency, today)
  }

  function Sync(rows: seq<Row>, t: Tier, today: int): seq<Row> {
    SyncFrom(rows, 0, t.name, HourlyEquivalent(t.rate, t.unit), t.currency, today)
  }

  predicate NameTaken(tiers: seq<Option<Tier>>, name: string, except: Option<nat>) {
    exists i :: 0 <= i < |tiers| && Some(i) != except && tiers[i].Some? && tiers[i].value.name == name
  }

  function CreateTier(s: State, body: Tier, today: int): (State, Answer) {
    var t := body.(name := Strip(body.name));
    if t.name == "" || t.rate <= 0 || NameTaken(s.tiers, t.name, None) then (s, Err(BadRequest))
    else (State(s.tiers + [Some(t)], if ForWorkers(t) then Sync(s.rows, t, today) else s.rows), Ok(()))
  }

  /** A field of a PATCH body: left out, sent as null, or sent with a value. */
  datatype Field<+T> = Unset | Null | Set(value: T) {
    function Or(current: T): T {
      match this
      case Set(v) => v
      case _ => current
    }
  }

  datatype Patch = Patch(name: Field<string>, currency: Field<string>, rate: Field<int>, unit: Field<PayUnit>,
                         active: Field<bool>, scope: Field<Scope>) {
    predicate Unstorable() {
      name.Null? || currency.Null? || rate.Null? || unit.Null? || active.Null? || scope.Null?
    }
  }

  function Patched(t: Tier, p: Patch): Tier {
    Tier(if p.name.Set? then Strip(p.name.value) else t.name, p.currency.Or(t.currency), p.rate.Or(t.rate),
         p.unit.Or(t.unit), p.active.Or(t.active), p.scope.Or(t.scope))
  }

  function Renamed(rows: seq<Row>, old_: string, new_: string): seq<Row> {
    seq(|rows|, i requires 0 <= i < |rows| => if rows[i].tier == Some(old_) then rows[i].(tier := Some(new_)) else rows[i])
  }

  /** `clientsUse` and `membersUse` say whether clients or workers are on the tier. */
  function UpdateTier(s: State, id: nat, p: Patch, clientsUse: bool, membersUse: bool, today: int): (State, Answer) {
    if id >= |s.tiers| || s.tiers[id].None? then (s, Err(NotFound))
    else
      var old_ := s.tiers[id].value;
      var t := Patched(old_, p);
      if (p.name.Set? && p.name.value != "" && NameTaken(s.tiers, t.name, Some(id))) || (p.rate.Set? && p.rate.value <= 0)
         || (p.scope == Set(Workers) && clientsUse) || (p.scope == Set(Clients) && membersUse) then (s, Err(BadRequest))
      else if p.Unstorable() || NameTaken(s.tiers, t.name, Some(id)) then (s, Err(DatabaseError))
      else
        var rows := if t.name != old_.name then Renamed(s.rows, old_.name, t.name) else s.rows;
        (State(s.tiers[id := Some(t)], if t.active && ForWorkers(t) then Sync(rows, t, today) else rows), Ok(()))
  }

  function Closed(rows: seq<Row>, name: string, today: int): seq<Row> {
    seq(|rows|, i requires 0 <= i < |rows| => if OpenOf(rows[i], name) then rows[i].(to := Some(today)) else rows[i])
  }

  function DeleteTier(s: State, id: nat, today: int): (State, Answer) {
    if id >= |s.tiers| || s.tiers[id].None? then (s, Err(NotFound))
    else (State(s.tiers[id := None], Closed(s.rows, s.tiers[id].value.name, today)), Ok(()))
  }

  // ---- single entries --------------------------------------------------------------

  /** Whose rate an entry is: a worker's own, or a tier's. */
  datatype Owner = OfWorker(id: nat) | OfTierNamed(name: string)

  predicate Owns(o: Owner, r: Row) {
    match o
    case OfWorker(id) => r.worker == Some(id)
    case OfTierNamed(name) => OfTier(r, name)
  }

  function ClosedBefore(rows: seq<Row>, o: Owner, from: int): seq<Row> {
    seq(|rows|, i requires 0 <= i < |rows| =>
      if Owns(o, rows[i]) && rows[i].to.None? && rows[i].from < from then rows[i].(to := Some(from)) else rows[i])
  }

  function CreateRate(rows: seq<Row>, worker: Option<nat>, tier: Option<string>, amount: int, currency: string,
                      from: int, to: Option<int>, reason: string): (seq<Row>, Answer) {
    if (worker.None? && (tier.None? || tier.value == "")) || amount <= 0 || Strip(reason) == "" then (rows, Err(BadRequest))
    else
      var o := if worker.Some? then OfWorker(worker.value) else OfTierNamed(tier.value);
      (ClosedBefore(rows, o, from) + [Row(worker, tier, amount, currency, from, to)], Ok(()))
  }

  // ---- runs, and the history they mean -----------------------------------------------

  datatype Event =
    | OnCreate(body: Tier)
    | OnUpdate(id: nat, patch: Patch, clientsUse: bool, membersUse: bool)
    | OnDelete(id: nat)

  function Step(s: State, e: Event, today: int): (State, Answer) {
    match e
    case OnCreate(body) => CreateTier(s, body, today)
    case OnUpdate(id, patch, clientsUse, membersUse) => UpdateTier(s, id, patch, clientsUse, membersUse, today)
    case OnDelete(id) => DeleteTier(s, id, today)
  }

  /** The simple account of a tier's pay: on `day` the rate became this, or there was none. */
  datatype Change = Change(day: int, rate: Option<(int, string)>)

  /** The rate on day d: the latest change on or before it. */
  function RateOn(history: seq<Change>, d: int): Option<(int, string)> {
    if history == [] then None
    else if history[|history| - 1].day <= d then history[|history| - 1].rate
    else RateOn(history[..|history| - 1], d)
  }

  type Histories = map<string, seq<Change>>

  function HistoryOf(h: Histories, name: string): seq<Change> {
    if name in h then h[name] else []
  }

  function Noted(h: Histories, name: string, c: Change): Histories {
    h[name := HistoryOf(h, name) + [c]]
  }

  function SyncNoted(h: Histories, t: Tier, today: int): Histories {
    Noted(h, t.name, Change(today, Some((HourlyEquivalent(t.rate, t.unit), t.currency))))
  }

  /** What the event means for the histories: a sync notes the new rate, a rename carries the
      history over, a deletion notes that there is no rate any more. An update is read field by
      field from what was sent. */
  function Meaning(h: Histories, s: State, e: Event, today: int): Histories {
    if Step(s, e, today).1.Err? then h
    else match e
      case OnCreate(body) =>
        var t := body.(name := Strip(body.name));
        if t.scope != Clients then SyncNoted(h, t, today) else h
      case OnUpdate(id, p, _, _) =>
        if id >= |s.tiers| || s.tiers[id].None? then h
        else
          var old_ := s.tiers[id].value;
          var name := if p.name.Set? then Strip(p.name.value) else old_.name;
          var rate := if p.rate.Set? then p.rate.value else old_.rate;
          var unit := if p.unit.Set? then p.unit.value else old_.unit;
          var currency := if p.currency.Set? then p.currency.value else old_.currency;
          var active := if p.active.Set? then p.active.value else old_.active;
          var scope := if p.scope.Set? then p.scope.value else old_.scope;
          var moved := if name != old_.name then h[name := HistoryOf(h, old_.name)][old_.name := []] else h;
          if active && scope != Clients then Noted(moved, name, Change(today, Some((HourlyEquivalent(rate, unit), currency))))
          else moved
      case OnDelete(id) =>
        if id >= |s.tiers| || s.tiers[id].None? then h
        else Noted(h, s.tiers[id].value.name, Change(today, None))
  }
}
