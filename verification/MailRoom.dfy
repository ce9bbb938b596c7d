/** The queue's endpoints, on tables they update in place. Each is proved to do exactly what the
    function of the same name in module EmailQueue says. */
module MailRoom {
  import opened Wrappers
  import opened TextCodec
  import opened EmailQueue
  import EmailQueueLaws

  /** The counters of _job_response. */
  datatype Report = Report(total: nat, sent: nat, failed: nat, skipped: nat, pending: nat)

  class Database {
    var jobs: seq<Job>
    var items: seq<Item>
    var logs: seq<Option<Log>>
    ghost var flight: multiset<nat>

    ghost function Now(): State
      reads this
    {
      State(jobs, items, logs, flight)
    }

    constructor ()
      ensures Now() == EMPTY
    {
      jobs, items, logs, flight := [], [], [], multiset{};
    }

    method JobResponse(job: nat) returns (r: Report)
      requires job < |jobs|
      ensures r == Report(jobs[job].total, Tally(items, job, ItemSent), Tally(items, job, ItemFailed),
                          Tally(items, job, ItemSkipped), Tally(items, job, ItemPending) + Tally(items, job, ItemClaimed))
      ensures EmailQueueLaws.Consistent(Now()) ==> r.sent + r.failed + r.skipped + r.pending == r.total
    {
      var tally: map<ItemStatus, nat> := map[];
      for k := 0 to |items|
        invariant forall st :: (if st in tally then tally[st] else 0) == Tally(items[..k], job, st)
      {
        var i := items[k];
        assert items[..k + 1][..k] == items[..k];
        if i.job == job {
          tally := tally[i.status := (if i.status in tally then tally[i.status] else 0) + 1];
        }
      }
      assert items[..|items|] == items;
      EmailQueueLaws.TalliesPartition(items, job);
      r := Report(jobs[job].total,
                  if ItemSent in tally then tally[ItemSent] else 0,
                  if ItemFailed in tally then tally[ItemFailed] else 0,
                  if ItemSkipped in tally then tally[ItemSkipped] else 0,
                  (if ItemPending in tally then tally[ItemPending] else 0)
                  + (if ItemClaimed in tally then tally[ItemClaimed] else 0));
    }

    /** Adds the job and its items; the caller has checked that there are some. */
    method Enqueue(rs: seq<Recipient>, skipped: nat)
      requires rs != []
      modifies this
      ensures Now() == Build(old(Now()), rs, skipped).0
    {
      items := items + ItemsFor(|jobs|, rs);
      jobs := jobs + [Job(JobQueued, |rs|, 0, 0, skipped, None)];
    }

    static function Onto(out: seq<string>, rest: Option<seq<string>>): Option<seq<string>> {
      match rest
      case None => None
      case Some(more) => Some(out + more)
    }

    static method ReadExtra(extra: seq<string>, rules: Rules) returns (typed: Option<seq<string>>)
      ensures typed == AcceptedExtra(extra, rules.blocked)
    {
      var out: seq<string> := [];
      assert extra[0..] == extra;
      assert AcceptedExtra(extra, rules.blocked).Some? ==> [] + AcceptedExtra(extra, rules.blocked).value == AcceptedExtra(extra, rules.blocked).value;
      for i := 0 to |extra|
        invariant AcceptedExtra(extra, rules.blocked) == Onto(out, AcceptedExtra(extra[i..], rules.blocked))
      {
        var addr := Strip(extra[i]);
        assert extra[i..][1..] == extra[i + 1..];
        if addr != "" {
          if rules.blocked(addr) {
            return None;
          }
          ghost var rest := AcceptedExtra(extra[i + 1..], rules.blocked);
          assert rest.Some? ==> out + ([addr] + rest.value) == (out + [addr]) + rest.value;
          out := out + [addr];
        }
      }
      assert out + [] == out;
      return Some(out);
    }

    /** One pass over candidates; `more` are those a later pass takes up with the same set. */
    static method Pick(rs: seq<Recipient>, rules: Rules, seen: set<string>, ghost more: seq<Recipient>)
      returns (out: seq<Recipient>, seen': set<string>)
      ensures FirstOfEach(rs + more, rules.key, seen) == out + FirstOfEach(more, rules.key, seen')
    {
      out, seen' := [], seen;
      assert rs[0..] == rs;
      for i := 0 to |rs|
        invariant FirstOfEach(rs + more, rules.key, seen) == out + FirstOfEach(rs[i..] + more, rules.key, seen')
      {
        var key := rules.key(rs[i].email);
        assert (rs[i..] + more)[1..] == rs[i + 1..] + more;
        if key !in seen' {
          seen' := seen' + {key};
          ghost var rest := FirstOfEach(rs[i + 1..] + more, rules.key, seen');
          assert out + ([rs[i]] + rest) == (out + [rs[i]]) + rest;
          out := out + [rs[i]];
        }
      }
      assert rs[|rs|..] + more == more;
    }

    method Broadcast(title: string, message: string, workers: seq<(nat, string)>, extra: seq<string>,
                     skipWorkers: bool, rules: Rules) returns (r: Answer)
      modifies this
      ensures (Now(), r) == EmailQueue.Broadcast(old(Now()), title, message, workers, extra, skipWorkers, rules)
    {
      hide Strip, AcceptedExtra, FirstOfEach, ItemsFor;
      if Strip(title) == "" || Strip(message) == "" {
        return Err(BadRequest);
      }
      var typed := ReadExtra(extra, rules);
      if typed.None? || (skipWorkers && typed.value == []) {
        return Err(BadRequest);
      }
      var asked := if skipWorkers then [] else workers;
      var reachable := Reachable(asked, rules.valid);
      var seen: set<string> := {};
      var first, more;
      first, seen := Pick(reachable, rules, seen, Typed(typed.value));
      more, seen := Pick(Typed(typed.value), rules, seen, []);
      NobodyLeft(rules, seen);
      assert Typed(typed.value) + [] == Typed(typed.value) && more + [] == more;
      assert first + more == BroadcastRecipients(asked, typed.value, rules);
      if first + more == [] {
        return Err(BadRequest);
      }
      Enqueue(first + more, if |reachable| <= |asked| then |asked| - |reachable| else 0);
      return Ok(());
    }

    static method PickPayslips(summaries: seq<nat>, known: set<nat>, already: set<nat>, email: nat -> string, rules: Rules)
      returns (out: seq<Recipient>, skipped: nat)
      ensures out == PayslipRecipients(summaries, known, already, email, rules.valid, {})
      ensures |out| + skipped == |KnownOf(summaries, known)|
    {
      hide PayslipRecipients, KnownOf;
      var seen: set<nat> := {};
      out, skipped := [], 0;
      NobodyYet(summaries, known);
      for i := 0 to |summaries|
        invariant out + PayslipRecipients(summaries[i..], known, already, email, rules.valid, seen)
                  == PayslipRecipients(summaries, known, already, email, rules.valid, {})
        invariant seen == KnownOf(summaries[..i], known) && |out| + skipped == |seen|
      {
        var w := summaries[i];
        PayslipStep(summaries, i, known, already, email, rules.valid, seen);
        if w in known && w !in seen {
          seen := seen + {w};
          ghost var rest := PayslipRecipients(summaries[i + 1..], known, already, email, rules.valid, seen);
          if w in already || !rules.valid(email(w)) {
            skipped := skipped + 1;
          } else {
            MovedOver(out, Recipient(Some(w), email(w)), rest);
            out := out + [Recipient(Some(w), email(w))];
          }
        }
      }
      assert summaries[..|summaries|] == summaries;
      PayslipsEnd(known, already, email, rules.valid, seen);
      assert summaries[|summaries|..] == [] && out + [] == out;
    }

    method SendPayslips(summaries: seq<nat>, known: set<nat>, already: set<nat>, email: nat -> string, rules: Rules)
      returns (r: Answer)
      modifies this
      ensures var out := PayslipRecipients(summaries, known, already, email, rules.valid, {});
              |out| <= |KnownOf(summaries, known)| && (Now(), r) == Build(old(Now()), out, |KnownOf(summaries, known)| - |out|)
    {
      var out, skipped := PickPayslips(summaries, known, already, email, rules);
      if out == [] {
        return Err(BadRequest);
      }
      Enqueue(out, skipped);
      r := Ok(());
    }

    method Retry(job: nat) returns (r: Answer)
      modifies this
      ensures (Now(), r) == EmailQueue.Retry(old(Now()), job)
    {
      if job >= |jobs| {
        return Err(NotFound);
      }
      if !HasItem(items, job, ItemFailed) {
        return Err(BadRequest);
      }
      ghost var before := items;
      for k := 0 to |items|
        invariant |items| == |before| && forall m :: 0 <= m < |items| ==>
          items[m] == if m < k then RetryItems(before, job)[m] else before[m]
        invariant jobs == old(jobs) && logs == old(logs) && flight == old(flight)
      {
        if items[k].job == job && items[k].status == ItemFailed {
          items := items[k := items[k].(status := ItemPending, attempts := 0, claimedAt := 0)];
        }
      }
      assert items == RetryItems(before, job);
      jobs := jobs[job := jobs[job].(status := JobQueued, finishedAt := None)];
      return Ok(());
    }

    method Cancel(job: nat, now: int) returns (r: Answer)
      modifies this
      ensures (Now(), r) == EmailQueue.Cancel(old(Now()), job, now)
    {
      if job >= |jobs| {
        return Err(NotFound);
      }
      if jobs[job].status == JobCompleted {
        return Err(BadRequest);
      }
      ghost var before := items;
      for k := 0 to |items|
        invariant |items| == |before| && forall m :: 0 <= m < |items| ==>
          items[m] == if m < k then CancelItems(before, job)[m] else before[m]
        invariant jobs == old(jobs) && logs == old(logs) && flight == old(flight)
      {
        if items[k].job == job && Outstanding(items[k]) {
          items := items[k := items[k].(status := ItemSkipped)];
        }
      }
      assert items == CancelItems(before, job);
      jobs := jobs[job := jobs[job].(status := JobCancelled, finishedAt := Some(now))];
      return Ok(());
    }

    method FindItem(job: nat, email: string) returns (item: Option<nat>)
      ensures item == ItemOf(items, job, email, 0)
    {
      for k := 0 to |items|
        invariant ItemOf(items, job, email, k) == ItemOf(items, job, email, 0)
      {
        if items[k].job == job && items[k].email == email {
          return Some(k);
        }
      }
      return None;
    }

    method Resend(log: nat, delivered: bool) returns (r: Answer)
      modifies this
      ensures (Now(), r) == EmailQueue.Resend(old(Now()), log, delivered)
    {
      if log >= |logs| || logs[log].None? {
        return Err(NotFound);
      }
      var l := logs[log].value;
      if !l.failed || l.otp {
        return Err(BadRequest);
      }
      if l.job.None? {
        if !l.content {
          return Err(BadRequest);
        }
        logs := logs[log := None] + [Some(Log(None, l.email, !delivered, false, !delivered))];
        return Ok(());
      }
      var job := l.job.value;
      var item := FindItem(job, l.email);
      if job >= |jobs| || item.None? {
        return Err(BadRequest);
      }
      var i := items[item.value];
      if i.status != ItemSent {
        var alreadyQueued := Outstanding(i);
        if !alreadyQueued {
          items := items[item.value := Requeued(i)];
        } else {
          assert items == items[item.value := i];
        }
        var j := jobs[job];
        j := j.(status := if items[item.value].status == ItemClaimed then JobRunning else JobQueued, finishedAt := None);
        if !alreadyQueued && j.failed > 0 {
          j := j.(failed := j.failed - 1);
        }
        jobs := jobs[job := j];
      }
      logs := logs[log := None];
      return Ok(());
    }

    method DeleteFailed(log: nat) returns (r: Answer)
      modifies this
      ensures (Now(), r) == EmailQueue.DeleteFailed(old(Now()), log)
    {
      if log >= |logs| || logs[log].None? {
        return Err(NotFound);
      }
      if !logs[log].value.failed {
        return Err(BadRequest);
      }
      logs := logs[log := None];
      return Ok(());
    }
  }

  /** The workers the summaries are about, as far as they are known. */
  function KnownOf(summaries: seq<nat>, known: set<nat>): set<nat> {
    set w | w in summaries && w in known
  }

  lemma NobodyYet(summaries: seq<nat>, known: set<nat>)
    ensures KnownOf(summaries[..0], known) == {} && summaries[0..] == summaries
    ensures forall rs: seq<Recipient> :: [] + rs == rs
  {
  }

  lemma MovedOver(out: seq<Recipient>, r: Recipient, rest: seq<Recipient>)
    ensures out + ([r] + rest) == (out + [r]) + rest
  {
  }

  lemma PayslipStep(summaries: seq<nat>, i: nat, known: set<nat>, already: set<nat>, email: nat -> string, valid: string -> bool,
                    seen: set<nat>)
    requires i < |summaries|
    ensures var (w, all, rest) := (summaries[i], summaries[i..], summaries[i + 1..]);
            PayslipRecipients(all, known, already, email, valid, seen)
            == if w !in known || w in seen then PayslipRecipients(rest, known, already, email, valid, seen)
               else if w in already || !valid(email(w)) then PayslipRecipients(rest, known, already, email, valid, seen + {w})
               else [Recipient(Some(w), email(w))] + PayslipRecipients(rest, known, already, email, valid, seen + {w})
    ensures KnownOf(summaries[..i + 1], known) == KnownOf(summaries[..i], known) + if summaries[i] in known then {summaries[i]} else {}
  {
    assert summaries[i..][1..] == summaries[i + 1..];
    assert summaries[..i + 1] == summaries[..i] + [summaries[i]];
    ghost var rest := PayslipRecipients(summaries[i + 1..], known, already, email, valid, seen + {summaries[i]});
    assert [] + rest == rest;
  }

  lemma NobodyLeft(rules: Rules, seen: set<string>)
    ensures FirstOfEach([], rules.key, seen) == []
  {
  }

  lemma PayslipsEnd(known: set<nat>, already: set<nat>, email: nat -> string, valid: string -> bool, seen: set<nat>)
    ensures PayslipRecipients([], known, already, email, valid, seen) == []
  {
  }
}
