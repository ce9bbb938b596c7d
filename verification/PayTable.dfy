/** The tier and rate endpoints, on tables they update in place. Each is proved to do exactly
    what the function of the same name in module RateTable says. */
module PayTable {
  import opened Wrappers
  import opened TextCodec
  import opened RateTable

  class Database {
    var tiers: seq<Option<Tier>>
    var rows: seq<Row>

    ghost function Now(): State
      reads this
    {
      State(tiers, rows)
    }

    constructor ()
      ensures Now() == State([], [])
    {
      tiers, rows := [], [];
    }

    method SyncRateTable(t: Tier, today: int)
      modifies this`rows
      ensures rows == Sync(old(rows), t, today)
    {
      var amount := HourlyEquivalent(t.rate, t.unit);
      hide HourlyEquivalent;
      for i := 0 to |rows|
        invariant |rows| == |old(rows)|
        invariant SyncFrom(rows, i, t.name, amount, t.currency, today) == Sync(old(rows), t, today)
      {
        if OpenOf(rows[i], t.name) {
          if rows[i].from < today {
            rows := rows[i := rows[i].(to := Some(today))];
          } else if rows[i].from == today {
            rows := rows[i := rows[i].(amount := amount, currency := t.currency)];
            return;
          }
        }
      }
      rows := rows + [Row(None, Some(t.name), amount, t.currency, today, None)];
    }

    method Taken(name: string, except: Option<nat>) returns (r: bool)
      ensures r == NameTaken(tiers, name, except)
    {
      for i := 0 to |tiers|
        invariant forall k :: 0 <= k < i && Some(k) != except && tiers[k].Some? ==> tiers[k].value.name != name
      {
        if Some(i) != except && tiers[i].Some? && tiers[i].value.name == name {
          return true;
        }
      }
      return false;
    }

    method CreateTier(body: Tier, today: int) returns (r: Answer)
      modifies this
      ensures (Now(), r) == RateTable.CreateTier(old(Now()), body, today)
    {
      hide Sync, NameTaken, Strip;
      var t := body.(name := Strip(body.name));
      if t.name == "" || t.rate <= 0 {
        return Err(BadRequest);
      }
      var taken := Taken(t.name, None);
      if taken {
        return Err(BadRequest);
      }
      tiers := tiers + [Some(t)];
      if ForWorkers(t) {
        SyncRateTable(t, today);
      }
      r := Ok(());
    }

    method UpdateTier(id: nat, p: Patch, clientsUse: bool, membersUse: bool, today: int) returns (r: Answer)
      modifies this
      ensures (Now(), r) == RateTable.UpdateTier(old(Now()), id, p, clientsUse, membersUse, today)
    {
      hide Sync, NameTaken, Strip;
      if id >= |tiers| || tiers[id].None? {
        return Err(NotFound);
      }
      var old_ := tiers[id].value;
      var t := Patched(old_, p);
      var taken := Taken(t.name, Some(id));
      if p.name.Set? && p.name.value != "" && taken {
        return Err(BadRequest);
      }
      if p.rate.Set? && p.rate.value <= 0 {
        return Err(BadRequest);
      }
      if (p.scope == Set(Workers) && clientsUse) || (p.scope == Set(Clients) && membersUse) {
        return Err(BadRequest);
      }
      if p.Unstorable() || taken {
        return Err(DatabaseError);
      }
      tiers := tiers[id := Some(t)];
      if t.name != old_.name {
        RenameRows(old_.name, t.name);
      }
      if t.active && ForWorkers(t) {
        SyncRateTable(t, today);
      }
      r := Ok(());
    }

    method RenameRows(old_: string, new_: string)
      modifies this`rows
      ensures rows == Renamed(old(rows), old_, new_)
    {
      for i := 0 to |rows|
        invariant |rows| == |old(rows)|
        invariant forall k :: 0 <= k < i ==> rows[k] == Renamed(old(rows), old_, new_)[k]
        invariant forall k :: i <= k < |rows| ==> rows[k] == old(rows)[k]
      {
        if rows[i].tier == Some(old_) {
          rows := rows[i := rows[i].(tier := Some(new_))];
        }
      }
    }

    method DeleteTier(id: nat, today: int) returns (r: Answer)
      modifies this
      ensures (Now(), r) == RateTable.DeleteTier(old(Now()), id, today)
    {
      if id >= |tiers| || tiers[id].None? {
        return Err(NotFound);
      }
      var name := tiers[id].value.name;
      for i := 0 to |rows|
        invariant tiers == old(tiers) && |rows| == |old(rows)|
        invariant forall k :: 0 <= k < i ==> rows[k] == Closed(old(rows), name, today)[k]
        invariant forall k :: i <= k < |rows| ==> rows[k] == old(rows)[k]
      {
        if OpenOf(rows[i], name) {
          rows := rows[i := rows[i].(to := Some(today))];
        }
      }
      assert rows == Closed(old(rows), name, today);
      tiers := tiers[id := None];
      r := Ok(());
    }

    method CreateRate(worker: Option<nat>, tier: Option<string>, amount: int, currency: string,
                      from: int, to: Option<int>, reason: string) returns (r: Answer)
      modifies this`rows
      ensures (rows, r) == RateTable.CreateRate(old(rows), worker, tier, amount, currency, from, to, reason)
    {
      hide Strip;
      if (worker.None? && (tier.None? || tier.value == "")) || amount <= 0 || Strip(reason) == "" {
        return Err(BadRequest);
      }
      var o := if worker.Some? then OfWorker(worker.value) else OfTierNamed(tier.value);
      for i := 0 to |rows|
        invariant |rows| == |old(rows)|
        invariant forall k :: 0 <= k < i ==> rows[k] == ClosedBefore(old(rows), o, from)[k]
        invariant forall k :: i <= k < |rows| ==> rows[k] == old(rows)[k]
      {
        if Owns(o, rows[i]) && rows[i].to.None? && rows[i].from < from {
          rows := rows[i := rows[i].(to := Some(from))];
        }
      }
      assert rows == ClosedBefore(old(rows), o, from);
      rows := rows + [Row(worker, tier, amount, currency, from, to)];
      r := Ok(());
    }
  }
}
