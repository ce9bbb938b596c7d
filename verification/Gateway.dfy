/** Closing a machine's tunnels, backend/core/guacamole.py: list the active sessions, ask the
    gateway to remove the machine's, and poll until they are gone or time is up. */
module Gateway {
  import opened Wrappers
  import opened ConnectionId

  /** One row of the active-session listing. A missing field is None. */
  datatype Meta = NotDict | Dict(identifier: Option<string>, legacy: Option<string>)

  /** The listing in the order the gateway gives it: active id and row. */
  type Listing = seq<(string, Meta)>

  /** `identifier or legacy`: an empty identifier counts as missing. */
  function Owner(m: Meta): Option<string>
    requires m.Dict?
  {
    if m.identifier.Some? && m.identifier.value != "" then m.identifier else m.legacy
  }

  /** The rows close_and_confirm takes for the machine's: no owner reads as the empty one. */
  predicate Matches(m: Meta, ident: string) {
    m.Dict? && RawConnectionId(Owner(m).GetOr("")) == ident
  }

  /** The rows kill_active_connections takes: a row without an owner is nobody's. */
  predicate Killable(m: Meta, ident: string) {
    m.Dict? && Owner(m).Some? && RawConnectionId(Owner(m).value) == ident
  }

  function MatchingIds(l: Listing, ident: string): seq<string> {
    if l == [] then []
    else (if Matches(l[0].1, ident) then [l[0].0] else []) + MatchingIds(l[1..], ident)
  }

  function KillableIds(l: Listing, ident: string): seq<string> {
    if l == [] then []
    else (if Killable(l[0].1, ident) then [l[0].0] else []) + KillableIds(l[1..], ident)
  }

  datatype Outcome = Closed(closed: nat) | AlreadyClosed | Pending | Failed

  /** What the gateway does when it is asked for the n-th time, and how long that takes. */
  datatype Answer = Listed(rows: Listing, took: nat) | Unreachable(took: nat)

  const POLL_MS := 200

  ghost predicate Shows(l: Listing, ident: string) {
    MatchingIds(l, ident) != []
  }

  /** What a call may answer, given the listings completed during it and the removal requests
      the gateway accepted during it. */
  ghost predicate CloseReport(ident: string, outcome: Outcome, taken: seq<Listing>, accepted: seq<seq<string>>) {
    // At most one request, for exactly the machine's sessions of the first listing.
    && (accepted == [] || (taken != [] && Shows(taken[0], ident) && accepted == [MatchingIds(taken[0], ident)]))
    && (forall i :: 0 <= i < |taken| - 1 ==> Shows(taken[i], ident))
    && match outcome
       case AlreadyClosed => |taken| == 1 && accepted == [] && !Shows(taken[0], ident)
       case Closed(n) => |taken| >= 2 && accepted != [] && n == |accepted[0]| && !Shows(taken[|taken| - 1], ident)
       case Pending => accepted != [] && Shows(taken[|taken| - 1], ident)
       case Failed => taken != [] ==> Shows(taken[|taken| - 1], ident)
  }

  /** A machine is reported free exactly when the last listing of the call showed none of its
      sessions; a pending or failed answer never follows such a listing. */
  lemma FreeMeansSeenGone(ident: string, outcome: Outcome, taken: seq<Listing>, accepted: seq<seq<string>>)
    requires CloseReport(ident, outcome, taken, accepted)
    ensures outcome.Closed? || outcome.AlreadyClosed? <==> exists i :: 0 <= i < |taken| && !Shows(taken[i], ident)
  {
    if outcome.Closed? || outcome.AlreadyClosed? {
      assert !Shows(taken[|taken| - 1], ident);
    }
  }

  class Client {
    const world: nat -> Answer
    var asked: nat
    var clock: int
    /** The listings completed so far, oldest first. */
    ghost var seen: seq<Listing>
    /** The removal requests the gateway has accepted. */
    var removed: seq<seq<string>>

    constructor (world: nat -> Answer, clock: int)
      ensures this.world == world && asked == 0 && seen == [] && removed == []
    {
      this.world := world;
      this.clock := clock;
      asked, seen, removed := 0, [], [];
    }

    method ListActiveConnections() returns (r: Option<Listing>)
      modifies this
      ensures asked == old(asked) + 1 && clock >= old(clock) && removed == old(removed)
      ensures r == match world(old(asked)) case Listed(rows, _) => Some(rows) case Unreachable(_) => None
      ensures seen == old(seen) + if r.Some? then [r.value] else []
    {
      var answer := world(asked);
      asked, clock := asked + 1, clock + answer.took;
      match answer {
        case Listed(rows, _) =>
          seen := seen + [rows];
          return Some(rows);
        case Unreachable(_) =>
          return None;
      }
    }

    method Remove(ids: seq<string>) returns (ok: bool)
      modifies this
      ensures asked == old(asked) + 1 && clock >= old(clock) && seen == old(seen)
      ensures ok == world(old(asked)).Listed?
      ensures removed == old(removed) + if ok then [ids] else []
    {
      var answer := world(asked);
      asked, clock := asked + 1, clock + answer.took;
      ok := answer.Listed?;
      if ok {
        removed := removed + [ids];
      }
    }

    method CollectIds(l: Listing, ident: string) returns (ids: seq<string>)
      ensures ids == MatchingIds(l, ident)
    {
      ids := [];
      for i := 0 to |l|
        invariant ids + MatchingIds(l[i..], ident) == MatchingIds(l, ident)
      {
        if Matches(l[i].1, ident) {
          ids := ids + [l[i].0];
        }
      }
    }

    method CollectKillable(l: Listing, ident: string) returns (ids: seq<string>)
      ensures ids == KillableIds(l, ident)
    {
      hide Killable;
      ids := [];
      for i := 0 to |l|
        invariant ids + KillableIds(l[i..], ident) == KillableIds(l, ident)
      {
        if Killable(l[i].1, ident) {
          ids := ids + [l[i].0];
        }
      }
    }

    /** kill_active_connections: any error counts as nothing killed. */
    method KillActiveConnections(id: string) returns (killed: nat, ghost accepted: seq<seq<string>>)
      modifies this
      ensures removed == old(removed) + accepted
      ensures killed == 0 <==> accepted == []
      ensures killed > 0 ==> exists l :: seen == old(seen) + [l] && accepted == [KillableIds(l, RawConnectionId(id))]
                                         && killed == |accepted[0]|
    {
      hide RawConnectionId, KillableIds;
      accepted := [];
      var listing := ListActiveConnections();
      if listing.None? {
        return 0, accepted;
      }
      var l := listing.value;
      var ids := CollectKillable(l, RawConnectionId(id));
      if ids == [] {
        return 0, accepted;
      }
      var ok := Remove(ids);
      if !ok {
        return 0, accepted;
      }
      return |ids|, [ids];
    }

    method CloseAndConfirm(id: string, timeoutMs: int)
      returns (outcome: Outcome, ghost taken: seq<Listing>, ghost accepted: seq<seq<string>>)
      modifies this
      ensures seen == old(seen) + taken && removed == old(removed) + accepted
      ensures CloseReport(RawConnectionId(id), outcome, taken, accepted)
      // Reported free only on a listing in which no row names the connection, by either field.
      ensures outcome.Closed? || outcome.AlreadyClosed? ==> taken != [] && NoneNames(taken[|taken| - 1], RawConnectionId(id))
      // A failure is always the gateway's own.
      ensures outcome.Failed? <==> exists n :: old(asked) <= n < asked && world(n).Unreachable?
      // Pending is answered only after the deadline, and the polling stops at it.
      ensures outcome.Pending? ==> clock >= old(clock) + timeoutMs
      ensures POLL_MS * (|taken| - 2) <= Max(0, timeoutMs)
    {
      hide RawConnectionId, MatchingIds, NoneNames;
      var ident := RawConnectionId(id);
      taken, accepted := [], [];
      var before := ListActiveConnections();
      if before.None? {
        assert world(old(asked)).Unreachable?;
        return Failed, taken, accepted;
      }
      taken := [before.value];
      var matching := CollectIds(before.value, ident);
      ShowsIff(before.value, ident);
      if matching == [] {
        return AlreadyClosed, taken, accepted;
      }
      var ok := Remove(matching);
      if !ok {
        assert world(old(asked) + 1).Unreachable?;
        return Failed, taken, accepted;
      }
      accepted := [matching];
      var deadline := clock + timeoutMs;
      while clock < deadline
        invariant seen == old(seen) + taken && removed == old(removed) + accepted
        invariant CloseReport(ident, Pending, taken, accepted) && accepted == [matching]
        invariant old(asked) <= asked && forall n :: old(asked) <= n < asked ==> world(n).Listed?
        invariant deadline >= old(clock) + timeoutMs
        invariant clock >= deadline - timeoutMs + POLL_MS * (|taken| - 1)
        invariant POLL_MS * (|taken| - 2) <= Max(0, timeoutMs)
        decreases deadline - clock
      {
        var listing := ListActiveConnections();
        if listing.None? {
          assert world(asked - 1).Unreachable?;
          return Failed, taken, accepted;
        }
        taken := taken + [listing.value];
        var remaining := CollectIds(listing.value, ident);
        ShowsIff(listing.value, ident);
        if remaining == [] {
          return Closed(|matching|), taken, accepted;
        }
        clock := clock + POLL_MS;
      }
      return Pending, taken, accepted;
    }
  }

  // ---- what is matched ---------------------------------------------------------

  lemma {:induction false} MatchingIdsExact(l: Listing, ident: string, active: string)
    ensures active in MatchingIds(l, ident) <==> exists i :: 0 <= i < |l| && l[i].0 == active && Matches(l[i].1, ident)
  {
    if l != [] {
      MatchingIdsExact(l[1..], ident, active);
      if active in MatchingIds(l[1..], ident) {
        var i :| 0 <= i < |l[1..]| && l[1..][i].0 == active && Matches(l[1..][i].1, ident);
        assert l[i + 1].0 == active;
      }
      if exists i :: 0 <= i < |l| && l[i].0 == active && Matches(l[i].1, ident) {
        var i :| 0 <= i < |l| && l[i].0 == active && Matches(l[i].1, ident);
        if i > 0 {
          assert l[1..][i - 1].0 == active;
        }
      }
    }
  }

  /** A machine known under either form claims the sessions of its own connection, in either
      form, and of no other decimal connection. */
  lemma EitherFormMatches(d: string, e: string, machineForm: bool, sessionForm: bool, ds: string, legacy: Option<string>)
    requires IsDecimal(d) && IsDecimal(e)
    ensures var machine := if machineForm then ClientId(d, ds) else d;
            var session := if sessionForm then ClientId(e, ds) else e;
            Matches(Dict(Some(session), legacy), RawConnectionId(machine)) <==> d == e
  {
    hide RawConnectionId, ClientId;
    StoredFormsCollapse(d, ds, ds);
    StoredFormsCollapse(e, ds, ds);
    var session := if sessionForm then ClientId(e, ds) else e;
    assert session != "" by {
      if session == "" {
        EmptyIsEmpty();
      }
    }
  }

  lemma EmptyIsEmpty()
    ensures RawConnectionId("") == ""
  {
  }

  /** A session row names the connection `ident`: by its identifier if that is not empty, and
      otherwise by the older field, of which a missing one reads as the empty text. */
  predicate Names(m: Meta, ident: string) {
    && m.Dict?
    && (m.identifier.Some? && m.identifier.value != "" ==> RawConnectionId(m.identifier.value) == ident)
    && (m.identifier == None || m.identifier == Some("") ==>
          (m.legacy.Some? ==> RawConnectionId(m.legacy.value) == ident) && (m.legacy.None? ==> ident == ""))
  }

  lemma MatchesIffNames(m: Meta, ident: string)
    ensures Matches(m, ident) <==> Names(m, ident)
    ensures ident != "" ==> (Killable(m, ident) <==> Names(m, ident))
  {
    EmptyIsEmpty();
    hide RawConnectionId;
  }

  /** A nonempty identifier decides, whatever the older field says. */
  lemma IdentifierDecides(session: string, legacy: Option<string>, ident: string)
    requires session != ""
    ensures Matches(Dict(Some(session), legacy), ident) <==> RawConnectionId(session) == ident
    ensures Killable(Dict(Some(session), legacy), ident) <==> RawConnectionId(session) == ident
  {
    hide RawConnectionId;
  }

  /** A session known by the older field alone is the machine's, to close or to kill, exactly
      when it is the same decimal connection, in whichever forms the two are stored. */
  lemma OlderFieldMatches(d: string, e: string, machineForm: bool, sessionForm: bool, ds: string, identifier: Option<string>)
    requires IsDecimal(d) && IsDecimal(e) && (identifier == None || identifier == Some(""))
    ensures var machine := if machineForm then ClientId(d, ds) else d;
            var row := Dict(identifier, Some(if sessionForm then ClientId(e, ds) else e));
            && (Matches(row, RawConnectionId(machine)) <==> d == e)
            && (Killable(row, RawConnectionId(machine)) <==> d == e)
  {
    StoredFormsCollapse(d, ds, ds);
    StoredFormsCollapse(e, ds, ds);
    hide RawConnectionId, ClientId;
  }

  /** No row of the listing names the connection. */
  ghost predicate NoneNames(l: Listing, ident: string) {
    forall i :: 0 <= i < |l| ==> !Names(l[i].1, ident)
  }

  lemma {:induction false} ShowsIff(l: Listing, ident: string)
    ensures Shows(l, ident) <==> !NoneNames(l, ident)
  {
    hide RawConnectionId, Matches, Names;
    if l != [] {
      MatchesIffNames(l[0].1, ident);
      ShowsIff(l[1..], ident);
      assert l == [l[0]] + l[1..];
    }
  }

  /** A removal request names exactly the sessions whose row names the connection. */
  lemma RemovedExactly(ident: string, outcome: Outcome, taken: seq<Listing>, accepted: seq<seq<string>>, active: string)
    requires CloseReport(ident, outcome, taken, accepted) && accepted != []
    ensures active in accepted[0] <==> exists i :: 0 <= i < |taken[0]| && taken[0][i].0 == active && Names(taken[0][i].1, ident)
  {
    hide RawConnectionId, Matches, Names;
    MatchingIdsExact(taken[0], ident, active);
    forall i | 0 <= i < |taken[0]|
      ensures Matches(taken[0][i].1, ident) <==> Names(taken[0][i].1, ident)
    {
      MatchesIffNames(taken[0][i].1, ident);
    }
  }

  ghost predicate AllOwned(l: Listing) {
    forall i :: 0 <= i < |l| && l[i].1.Dict? ==> Owner(l[i].1).Some?
  }

  lemma KillableIff(m: Meta, ident: string)
    ensures Killable(m, ident) <==> Names(m, ident) && (m.legacy.Some? || (m.identifier.Some? && m.identifier.value != ""))
    ensures Killable(m, ident) <==> Matches(m, ident) && (ident != "" || Owner(m).Some?)
    ensures ident == "" && m.Dict? && Owner(m).None? ==> Matches(m, ident)
    ensures Matches(m, ident) ==> m.Dict?
  {
    EmptyIsEmpty();
    hide RawConnectionId;
  }

  /** The sessions killed are exactly those whose row has an owner and names the connection. */
  lemma {:induction false} KillableIdsExact(l: Listing, ident: string, active: string)
    ensures active in KillableIds(l, ident)
            <==> exists i :: 0 <= i < |l| && l[i].0 == active && Names(l[i].1, ident)
                             && (l[i].1.legacy.Some? || (l[i].1.identifier.Some? && l[i].1.identifier.value != ""))
  {
    hide RawConnectionId, Killable, Names;
    if l != [] {
      KillableIdsExact(l[1..], ident, active);
      KillableIff(l[0].1, ident);
      assert l == [l[0]] + l[1..];
    }
  }

  /** Closing and killing pick the same sessions unless the machine has no identifier: then
      closing, but not killing, takes every session whose owner is unknown. */
  lemma {:induction false} CloseIsKill(l: Listing, ident: string)
    ensures KillableIds(l, ident) == MatchingIds(l, ident) <==> ident != "" || AllOwned(l)
    ensures |KillableIds(l, ident)| <= |MatchingIds(l, ident)|
    ensures ident == "" && !AllOwned(l) ==> |KillableIds(l, ident)| < |MatchingIds(l, ident)|
  {
    hide RawConnectionId, Matches, Killable, Owner, AllOwned;
    if l == [] {
      AllOwnedUnfolds(l);
    } else {
      CloseIsKill(l[1..], ident);
      KillableIff(l[0].1, ident);
      AllOwnedUnfolds(l);
    }
  }

  lemma AllOwnedUnfolds(l: Listing)
    ensures AllOwned(l) <==> l == [] || ((l[0].1.Dict? ==> Owner(l[0].1).Some?) && AllOwned(l[1..]))
  {
    hide Owner;
    assert l != [] ==> l == [l[0]] + l[1..];
  }
}
