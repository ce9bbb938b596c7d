/** What each admin call and each dispatcher step does to the queue, row by row. */
module EmailQueueEffects {
  import opened Wrappers
  import opened TextCodec
  import opened EmailQueue
  import opened EmailQueueLaws

  // ---- counting -------------------------------------------------------------------------

  function Rows(items: seq<Item>, job: nat, status: ItemStatus): set<nat> {
    set k | 0 <= k < |items| && items[k].job == job && items[k].status == status
  }

  lemma RowsLast(items: seq<Item>, job: nat, status: ItemStatus)
    requires items != []
    ensures var (front, n) := (items[..|items| - 1], |items| - 1);
            && n !in Rows(front, job, status)
            && Rows(items, job, status)
               == Rows(front, job, status) + if items[n].job == job && items[n].status == status then {n as nat} else {}
  {
    var (front, n) := (items[..|items| - 1], |items| - 1);
    assert forall k :: 0 <= k < n ==> front[k] == items[k];
  }

  /** A tally is the number of items of the job in that status. */
  lemma {:induction false} TallyIsTheNumber(items: seq<Item>, job: nat, status: ItemStatus)
    ensures Tally(items, job, status) == |Rows(items, job, status)|
  {
    if items != [] {
      TallyIsTheNumber(items[..|items| - 1], job, status);
      RowsLast(items, job, status);
      TallyLast(items, job, status);
      hide Rows, Tally;
    }
  }

  /** How many items of the job that `f` moves to `status` come from the status `from`. */
  function Share(items: seq<Item>, job: nat, f: ItemStatus -> ItemStatus, status: ItemStatus, from: ItemStatus): nat {
    if f(from) == status then Tally(items, job, from) else 0
  }

  lemma ShareLast(items: seq<Item>, job: nat, f: ItemStatus -> ItemStatus, status: ItemStatus, from: ItemStatus)
    requires items != []
    ensures var last := items[|items| - 1];
            Share(items, job, f, status, from) == Share(items[..|items| - 1], job, f, status, from)
              + if last.job == job && last.status == from && f(last.status) == status then 1 else 0
  {
  }

  lemma TallyLast(items: seq<Item>, job: nat, status: ItemStatus)
    requires items != []
    ensures Tally(items, job, status)
            == Tally(items[..|items| - 1], job, status)
               + if items[|items| - 1].job == job && items[|items| - 1].status == status then 1 else 0
  {
  }

  /** Counting after each item of `job` was given a new status by `f`. */
  lemma {:induction false} TallyAfter(before: seq<Item>, after: seq<Item>, job: nat, f: ItemStatus -> ItemStatus, status: ItemStatus)
    requires |before| == |after|
    requires forall k :: 0 <= k < |before| ==>
               after[k].job == before[k].job && (before[k].job == job ==> after[k].status == f(before[k].status))
    ensures Tally(after, job, status)
            == Share(before, job, f, status, ItemPending) + Share(before, job, f, status, ItemClaimed)
               + Share(before, job, f, status, ItemSent) + Share(before, job, f, status, ItemFailed)
               + Share(before, job, f, status, ItemSkipped)
  {
    if before != [] {
      TallyAfter(before[..|before| - 1], after[..|after| - 1], job, f, status);
      hide Tally, Share;
      TallyLast(after, job, status);
      ShareLast(before, job, f, status, ItemPending);
      ShareLast(before, job, f, status, ItemClaimed);
      ShareLast(before, job, f, status, ItemSent);
      ShareLast(before, job, f, status, ItemFailed);
      ShareLast(before, job, f, status, ItemSkipped);
    }
  }

  // ---- retry and cancel ------------------------------------------------------------------

  /** Only the row of the job may have changed. */
  ghost predicate OnlyJob(s: State, s': State, job: nat) {
    && |s'.jobs| == |s.jobs| && forall j :: 0 <= j < |s.jobs| && j != job ==> s'.jobs[j] == s.jobs[j]
  }

  /** A retry is refused exactly for an unknown job or one without a failed item. An accepted one
      puts each failed item of the job back, unattempted and unclaimed, and the job into the
      queue; and nothing else changes. */
  lemma RetryIsExact(s: State, job: nat)
    ensures var (s', r) := Retry(s, job);
            && (r.Ok? <==> job < |s.jobs| && exists k :: 0 <= k < |s.items| && s.items[k].job == job && s.items[k].status == ItemFailed)
            && (r.Err? ==> s' == s)
            && (r.Ok? ==>
                  && s'.logs == s.logs && s'.flight == s.flight && OnlyJob(s, s', job)
                  && s'.jobs[job] == Job(JobQueued, s.jobs[job].total, s.jobs[job].sent, s.jobs[job].failed, s.jobs[job].skipped, None)
                  && |s'.items| == |s.items|
                  && forall k :: 0 <= k < |s.items| ==>
                       s'.items[k] == if s.items[k].job == job && s.items[k].status == ItemFailed
                                      then Item(job, s.items[k].worker, s.items[k].email, ItemPending, 0, 0) else s.items[k])
  {
  }

  /** After an accepted retry no item of the job is failed, as many more are pending as were
      failed, and the other counts are as before. */
  lemma RetryRequeuesTheFailed(s: State, job: nat)
    requires Retry(s, job).1.Ok?
    ensures var items := Retry(s, job).0.items;
            && Tally(items, job, ItemFailed) == 0
            && Tally(items, job, ItemPending) == Tally(s.items, job, ItemPending) + Tally(s.items, job, ItemFailed)
            && Tally(items, job, ItemClaimed) == Tally(s.items, job, ItemClaimed)
            && Tally(items, job, ItemSent) == Tally(s.items, job, ItemSent)
            && Tally(items, job, ItemSkipped) == Tally(s.items, job, ItemSkipped)
  {
    RetryIsExact(s, job);
    var f := (st: ItemStatus) => if st == ItemFailed then ItemPending else st;
    hide Retry, Tally;
    var items := Retry(s, job).0.items;
    TallyAfter(s.items, items, job, f, ItemFailed);
    TallyAfter(s.items, items, job, f, ItemPending);
    TallyAfter(s.items, items, job, f, ItemClaimed);
    TallyAfter(s.items, items, job, f, ItemSent);
    TallyAfter(s.items, items, job, f, ItemSkipped);
  }

  /** And a dispatcher can take any of them up again, for its first attempt. */
  lemma RetriedIsClaimable(s: State, job: nat, item: nat, now: int)
    requires Retry(s, job).1.Ok? && item < |s.items| && s.items[item].job == job && s.items[item].status == ItemFailed
    ensures var s' := Retry(s, job).0;
            Claimable(s', job, {item}) && item < |Claim(s', job, {item}, now).items|
            && Claim(s', job, {item}, now).items[item].status == ItemClaimed
            && Claim(s', job, {item}, now).items[item].attempts == 1 && item in Claim(s', job, {item}, now).flight
  {
    RetryIsExact(s, job);
    hide Retry;
  }

  /** A cancellation is refused exactly for an unknown or completed job. An accepted one skips
      the job's pending and claimed items, and no other. */
  lemma CancelIsExact(s: State, job: nat, now: int)
    ensures var (s', r) := Cancel(s, job, now);
            && (r.Ok? <==> job < |s.jobs| && s.jobs[job].status != JobCompleted)
            && (r.Err? ==> s' == s)
            && (r.Ok? ==>
                  && s'.logs == s.logs && s'.flight == s.flight && OnlyJob(s, s', job)
                  && s'.jobs[job] == Job(JobCancelled, s.jobs[job].total, s.jobs[job].sent, s.jobs[job].failed, s.jobs[job].skipped, Some(now))
                  && |s'.items| == |s.items|
                  && forall k :: 0 <= k < |s.items| ==>
                       s'.items[k] == if s.items[k].job == job && (s.items[k].status == ItemPending || s.items[k].status == ItemClaimed)
                                      then s.items[k].(status := ItemSkipped) else s.items[k])
  {
  }

  /** "Already sent stay sent; the rest are marked skipped." */
  lemma CancelSkipsTheRest(s: State, job: nat, now: int)
    requires Cancel(s, job, now).1.Ok?
    ensures var items := Cancel(s, job, now).0.items;
            && Tally(items, job, ItemPending) == 0 && Tally(items, job, ItemClaimed) == 0
            && Tally(items, job, ItemSkipped)
               == Tally(s.items, job, ItemSkipped) + Tally(s.items, job, ItemPending) + Tally(s.items, job, ItemClaimed)
            && Tally(items, job, ItemSent) == Tally(s.items, job, ItemSent)
            && Tally(items, job, ItemFailed) == Tally(s.items, job, ItemFailed)
  {
    CancelIsExact(s, job, now);
    var f := (st: ItemStatus) => if st == ItemPending || st == ItemClaimed then ItemSkipped else st;
    hide Cancel, Tally;
    var items := Cancel(s, job, now).0.items;
    TallyAfter(s.items, items, job, f, ItemPending);
    TallyAfter(s.items, items, job, f, ItemClaimed);
    TallyAfter(s.items, items, job, f, ItemSkipped);
    TallyAfter(s.items, items, job, f, ItemSent);
    TallyAfter(s.items, items, job, f, ItemFailed);
  }

  // ---- resending --------------------------------------------------------------------------

  /** A failure is accepted for resending exactly if it failed, is not a code, and its message
      can be rebuilt: from the job's item with that address, or from its own content. */
  lemma ResendIsAcceptedIff(s: State, log: nat, delivered: bool)
    ensures var (s', r) := Resend(s, log, delivered);
            && (r.Ok? <==>
                  && log < |s.logs| && s.logs[log].Some? && s.logs[log].value.failed && !s.logs[log].value.otp
                  && (s.logs[log].value.job.None? ==> s.logs[log].value.content)
                  && (s.logs[log].value.job.Some? ==>
                        && s.logs[log].value.job.value < |s.jobs|
                        && exists k :: 0 <= k < |s.items| && s.items[k].job == s.logs[log].value.job.value
                                       && s.items[k].email == s.logs[log].value.email))
            && (r.Err? ==> s' == s)
            && (r.Ok? ==> s'.flight == s.flight && |s'.jobs| == |s.jobs|)
  {
    if log < |s.logs| && s.logs[log].Some? && s.logs[log].value.job.Some? {
      ItemOfFound(s.items, s.logs[log].value.job.value, s.logs[log].value.email, 0);
    }
  }

  /** A direct message sent again: the failure goes, and the new attempt is logged as it went. */
  lemma DirectResendIsExact(s: State, log: nat, delivered: bool)
    requires Resend(s, log, delivered).1.Ok? && log < |s.logs| && s.logs[log].Some? && s.logs[log].value.job.None?
    ensures var s' := Resend(s, log, delivered).0;
            && s'.jobs == s.jobs && s'.items == s.items && |s'.logs| == |s.logs| + 1 && s'.logs[log].None?
            && (forall l :: 0 <= l < |s.logs| && l != log ==> s'.logs[l] == s.logs[l])
            && s'.logs[|s.logs|] == Some(Log(None, s.logs[log].value.email, !delivered, false, !delivered))
  {
  }

  /** A job's failure: it goes; a sent item and its job stay as they are; otherwise the job is
      open again, running if the item is being sent and queued if not, and counts one failure
      less if the item had been given up. */
  lemma BulkResendIsExact(s: State, log: nat, delivered: bool, item: nat)
    requires Resend(s, log, delivered).1.Ok? && log < |s.logs| && s.logs[log].Some? && s.logs[log].value.job.Some?
    requires item < |s.items| && s.items[item].job == s.logs[log].value.job.value && s.items[item].email == s.logs[log].value.email
    requires FirstOfAddress(s.items, item)
    ensures var s' := Resend(s, log, delivered).0;
            var (job, i) := (s.items[item].job, s.items[item]);
            && job < |s.jobs| && OnlyJob(s, s', job) && s'.logs == s.logs[log := None] && |s'.items| == |s.items|
            && (forall k :: 0 <= k < |s.items| && k != item ==> s'.items[k] == s.items[k])
            && s'.items[item] == (if i.status == ItemFailed || i.status == ItemSkipped
                                  then Item(job, i.worker, i.email, ItemPending, 0, 0) else i)
            && var (j, j') := (s.jobs[job], s'.jobs[job]);
               if i.status == ItemSent then j' == j
               else && j'.total == j.total && j'.sent == j.sent && j'.skipped == j.skipped && j'.finishedAt == None
                    && j'.status == (if i.status == ItemClaimed then JobRunning else JobQueued)
                    && j'.failed == if (i.status == ItemFailed || i.status == ItemSkipped) && j.failed > 0 then j.failed - 1 else j.failed
  {
    ItemOfFound(s.items, s.logs[log].value.job.value, s.logs[log].value.email, 0);
  }

  /** Deleting takes a failed entry off the list, and touches nothing else. */
  lemma DeletionIsExact(s: State, log: nat)
    ensures var (s', r) := DeleteFailed(s, log);
            && (r.Ok? <==> log < |s.logs| && s.logs[log].Some? && s.logs[log].value.failed)
            && (r.Err? ==> s' == s)
            && (r.Ok? ==> s' == State(s.jobs, s.items, s.logs[log := None], s.flight))
  {
  }

  // ---- building -----------------------------------------------------------------------------

  /** The typed addresses that count: each entry by itself, in order, and none if one is blocked. */
  lemma {:induction false} TypedEntryByEntry(a: seq<string>, b: seq<string>, blocked: string -> bool)
    ensures AcceptedExtra([], blocked) == Some([])
    ensures forall x :: AcceptedExtra([x], blocked) == if Strip(x) == "" then Some([]) else if blocked(Strip(x)) then None else Some([Strip(x)])
    ensures var (xs, ys) := (AcceptedExtra(a, blocked), AcceptedExtra(b, blocked));
            AcceptedExtra(a + b, blocked) == if xs.Some? && ys.Some? then Some(xs.value + ys.value) else None
  {
    hide Strip;
    if a == [] {
      assert a + b == b;
      var ys := AcceptedExtra(b, blocked);
      assert ys.Some? ==> [] + ys.value == ys.value;
    } else {
      assert (a + b)[0] == a[0] && (a + b)[1..] == a[1..] + b;
      TypedEntryByEntry(a[1..], b, blocked);
      var (xs, ys) := (AcceptedExtra(a[1..], blocked), AcceptedExtra(b, blocked));
      assert xs.Some? && ys.Some? ==> ([Strip(a[0])] + xs.value) + ys.value == [Strip(a[0])] + (xs.value + ys.value);
    }
    forall x
      ensures AcceptedExtra([x], blocked) == if Strip(x) == "" then Some([]) else if blocked(Strip(x)) then None else Some([Strip(x)])
    {
      assert [x][1..] == [] && [Strip(x)] + [] == [Strip(x)];
    }
  }

  /** They are refused exactly if one is blocked, and otherwise are those that are not blank. */
  lemma {:induction false} TypedExactly(extra: seq<string>, blocked: string -> bool, address: string)
    ensures AcceptedExtra(extra, blocked).None? <==> exists k :: 0 <= k < |extra| && Strip(extra[k]) != "" && blocked(Strip(extra[k]))
    ensures AcceptedExtra(extra, blocked).Some? ==>
              (address in AcceptedExtra(extra, blocked).value <==> address != "" && exists k :: 0 <= k < |extra| && Strip(extra[k]) == address)
  {
    hide Strip;
    if extra != [] {
      TypedExactly(extra[1..], blocked, address);
      assert forall k :: 1 <= k < |extra| ==> extra[k] == extra[1..][k - 1];
      if AcceptedExtra(extra[1..], blocked).None? {
        var k :| 0 <= k < |extra[1..]| && Strip(extra[1..][k]) != "" && blocked(Strip(extra[1..][k]));
        assert extra[k + 1] == extra[1..][k];
      } else if address in AcceptedExtra(extra[1..], blocked).value {
        var k :| 0 <= k < |extra[1..]| && Strip(extra[1..][k]) == address;
        assert extra[k + 1] == extra[1..][k];
      }
    }
  }

  /** How many of the selected workers have no valid address. */
  function Unreached(workers: seq<(nat, string)>, valid: string -> bool): nat {
    if workers == [] then 0 else (if valid(workers[0].1) then 0 else 1) + Unreached(workers[1..], valid)
  }

  lemma {:induction false} ReachableNumber(workers: seq<(nat, string)>, valid: string -> bool)
    ensures |Reachable(workers, valid)| + Unreached(workers, valid) == |workers|
  {
    if workers != [] {
      ReachableNumber(workers[1..], valid);
    }
  }

  /** A broadcast is refused exactly without a title or message, with a blocked address, without
      a typed one where workers are skipped, or without anyone eligible. */
  lemma BroadcastRefusedIff(s: State, title: string, message: string, workers: seq<(nat, string)>, extra: seq<string>,
                            skipWorkers: bool, rules: Rules)
    ensures var (s', r) := Broadcast(s, title, message, workers, extra, skipWorkers, rules);
            var (asked, typed) := (if skipWorkers then [] else workers, AcceptedExtra(extra, rules.blocked));
            && (r.Err? ==> s' == s)
            && (r.Err? <==>
                  || Strip(title) == "" || Strip(message) == "" || typed.None?
                  || forall q :: !Eligible(q, asked, typed.value, rules))
  {
    var (asked, typed) := (if skipWorkers then [] else workers, AcceptedExtra(extra, rules.blocked));
    hide Strip, AcceptedExtra, Reachable, Eligible, FirstOfEach;
    if typed.Some? {
      var out := BroadcastRecipients(asked, typed.value, rules);
      if out != [] {
        ItemIsEligible(asked, typed.value, rules, 0);
      }
      forall q | Eligible(q, asked, typed.value, rules)
        ensures out != []
      {
        var i := EligibleHasItem(asked, typed.value, rules, q);
      }
      if skipWorkers && typed.value == [] {
        NobodyAsked(rules);
      }
    }
  }

  lemma NobodyAsked(rules: Rules)
    ensures BroadcastRecipients([], [], rules) == []
  {
  }

  /** The job of a broadcast: queued, its total the number of its items, its skipped figure the
      number of selected workers without a valid address. */
  lemma BroadcastJobIsExact(s: State, title: string, message: string, workers: seq<(nat, string)>, extra: seq<string>,
                            skipWorkers: bool, rules: Rules)
    requires Broadcast(s, title, message, workers, extra, skipWorkers, rules).1.Ok?
    ensures var s' := Broadcast(s, title, message, workers, extra, skipWorkers, rules).0;
            && s'.jobs == s.jobs + [Job(JobQueued, |s'.items| - |s.items|, 0, 0,
                                        Unreached(if skipWorkers then [] else workers, rules.valid), None)]
            && s'.logs == s.logs && s'.flight == s.flight
            && forall k :: |s.items| <= k < |s'.items| ==> s'.items[k].attempts == 0 && s'.items[k].claimedAt == 0
  {
    hide Strip, AcceptedExtra, Reachable, FirstOfEach;
    ReachableNumber(if skipWorkers then [] else workers, rules.valid);
  }

  /** Of the candidates with one address, in order, the first is taken. */
  lemma {:induction false} FirstIsTaken(rs: seq<Recipient>, key: string -> string, seen: set<string>, q: Recipient)
    requires q in FirstOfEach(rs, key, seen)
    ensures exists i :: 0 <= i < |rs| && rs[i] == q && forall j :: 0 <= j < i ==> key(rs[j].email) != key(q.email)
    decreases |rs|
  {
    var k := key(rs[0].email);
    if k !in seen && q == rs[0] {
      assert rs[0] == q;
    } else {
      var seen' := if k in seen then seen else seen + {k};
      FirstOfEachSound(rs[1..], key, seen');
      FirstOfEachSound(rs, key, seen);
      FirstIsTaken(rs[1..], key, seen', q);
      var i :| 0 <= i < |rs[1..]| && rs[1..][i] == q && forall j :: 0 <= j < i ==> key(rs[1..][j].email) != key(q.email);
      assert rs[i + 1] == q;
      forall j | 0 <= j < i + 1
        ensures key(rs[j].email) != key(q.email)
      {
        assert j > 0 ==> rs[j] == rs[1..][j - 1];
      }
    }
  }

  /** An address typed in that is a selected worker's goes to the worker: an item without a
      worker has an address that no reachable worker shares. */
  lemma TypedYieldsToWorkers(s: State, title: string, message: string, workers: seq<(nat, string)>, extra: seq<string>,
                             skipWorkers: bool, rules: Rules, k: nat, w: nat)
    requires Broadcast(s, title, message, workers, extra, skipWorkers, rules).1.Ok? && !skipWorkers && w < |workers|
    requires |s.items| <= k < |Broadcast(s, title, message, workers, extra, skipWorkers, rules).0.items|
    requires Broadcast(s, title, message, workers, extra, skipWorkers, rules).0.items[k].worker.None? && rules.valid(workers[w].1)
    ensures rules.key(Broadcast(s, title, message, workers, extra, skipWorkers, rules).0.items[k].email) != rules.key(workers[w].1)
  {
    BroadcastBuilds(s, title, message, workers, extra, skipWorkers, rules);
    hide Broadcast, AcceptedExtra;
    var typed := AcceptedExtra(extra, rules.blocked).value;
    var (out, first, rest) := (BroadcastRecipients(workers, typed, rules), Reachable(workers, rules.valid), Typed(typed));
    ItemAt(s.items, |s.jobs|, out, k);
    var q := out[k - |s.items|];
    assert q in out;
    hide Reachable, Typed, FirstOfEach, ItemsFor;
    FirstIsTaken(first + rest, rules.key, {}, q);
    var i :| 0 <= i < |first + rest| && (first + rest)[i] == q && forall j :: 0 <= j < i ==> rules.key((first + rest)[j].email) != rules.key(q.email);
    var r := Recipient(Some(workers[w].0), workers[w].1);
    ReachableExact(workers, rules.valid, q);
    ReachableExact(workers, rules.valid, r);
    assert workers[w] in workers;
    var j :| 0 <= j < |first| && first[j] == r;
    assert (first + rest)[j] == r;
    assert forall m :: 0 <= m < |first| ==> first[m] != q;
  }

  // ---- the dispatcher -----------------------------------------------------------------------

  /** A claim takes pending items of the job, each for one more attempt, into its hands. */
  lemma ClaimIsExact(s: State, job: nat, chosen: set<nat>, now: int)
    requires forall k :: k in chosen ==> k < |s.items| && s.items[k].job == job && s.items[k].status == ItemPending
    ensures var s' := Claim(s, job, chosen, now);
            && s'.jobs == s.jobs && s'.logs == s.logs && s'.flight == s.flight + multiset(chosen) && |s'.items| == |s.items|
            && forall k :: 0 <= k < |s.items| ==>
                 s'.items[k] == if k in chosen
                                then Item(job, s.items[k].worker, s.items[k].email, ItemClaimed, s.items[k].attempts + 1, now)
                                else s.items[k]
  {
  }

  /** Reaping gives claims older than the cutoff back, or up after three attempts. */
  lemma ReapIsExact(s: State, cutoff: int)
    ensures var s' := Reap(s, cutoff);
            && s'.jobs == s.jobs && s'.logs == s.logs && s'.flight == s.flight && |s'.items| == |s.items|
            && forall k :: 0 <= k < |s.items| ==>
                 && s'.items[k].job == s.items[k].job && s'.items[k].attempts == s.items[k].attempts
                 && s'.items[k].status == (if s.items[k].status != ItemClaimed || s.items[k].claimedAt >= cutoff then s.items[k].status
                                           else if s.items[k].attempts < 3 then ItemPending else ItemFailed)
                 && (s'.items[k].status == s.items[k].status ==> s'.items[k] == s.items[k])
  {
  }

  /** Settling writes the outcome over the item: sent if accepted; if refused, pending for
      another attempt, or failed after three; skipped if its data is gone; failed if its job
      cannot be rendered. Attempts, and only they, are logged, each as it went. */
  lemma SettleIsExact(s: State, item: nat, o: Outcome)
    requires item in s.flight && item < |s.items|
    ensures var (s', i) := (Settle(s, item, o), s.items[item]);
            && s'.jobs == s.jobs && s'.flight == s.flight - multiset{item} && |s'.items| == |s.items|
            && (forall k :: 0 <= k < |s.items| && k != item ==> s'.items[k] == s.items[k])
            && s'.items[item].job == i.job && s'.items[item].email == i.email && s'.items[item].worker == i.worker
            && s'.items[item].attempts == i.attempts
            && (o.Accepted? ==> s'.items[item].status == ItemSent && s'.logs == s.logs + [Some(Log(Some(i.job), i.email, false, false, false))])
            && (o.Refused? ==> s'.items[item].status == (if i.attempts < 3 then ItemPending else ItemFailed)
                               && s'.logs == s.logs + [Some(Log(Some(i.job), i.email, true, false, false))])
            && (o.DataGone? ==> s'.items[item].status == ItemSkipped && s'.logs == s.logs)
            && (o.Broken? ==> s'.items[item].status == ItemFailed && s'.logs == s.logs)
  {
  }

  /** Releasing gives a still claimed item back; dying leaves it claimed. */
  lemma ReleaseAndCrashAreExact(s: State, item: nat)
    requires item in s.flight && item < |s.items|
    ensures var s' := Release(s, item);
            && s'.jobs == s.jobs && s'.logs == s.logs && s'.flight == s.flight - multiset{item} && |s'.items| == |s.items|
            && (forall k :: 0 <= k < |s.items| && k != item ==> s'.items[k] == s.items[k])
            && (s.items[item].status == ItemClaimed ==> s'.items[item] == s.items[item].(status := ItemPending, claimedAt := 0))
            && (s.items[item].status != ItemClaimed ==> s'.items[item] == s.items[item])
    ensures Crash(s, item) == State(s.jobs, s.items, s.logs, s.flight - multiset{item})
  {
  }

  /** Starting runs a queued job. Recounting stores the true counts, and completes the job exactly
      when none of its items is pending or claimed. */
  lemma StartAndRecountAreExact(s: State, job: nat, now: int)
    requires job < |s.jobs|
    ensures var s' := Start(s, job);
            && s'.items == s.items && s'.logs == s.logs && s'.flight == s.flight && OnlyJob(s, s', job)
            && s'.jobs[job] == s.jobs[job].(status := if s.jobs[job].status == JobQueued then JobRunning else s.jobs[job].status)
    ensures var s' := Recount(s, job, now);
            var done := forall k :: 0 <= k < |s.items| && s.items[k].job == job ==>
                          s.items[k].status != ItemPending && s.items[k].status != ItemClaimed;
            && s'.items == s.items && s'.logs == s.logs && s'.flight == s.flight && OnlyJob(s, s', job)
            && s'.jobs[job] == Job(if done then JobCompleted else s.jobs[job].status, s.jobs[job].total,
                                   |Rows(s.items, job, ItemSent)|, |Rows(s.items, job, ItemFailed)|, |Rows(s.items, job, ItemSkipped)|,
                                   if done then Some(now) else s.jobs[job].finishedAt)
  {
    TallyIsTheNumber(s.items, job, ItemSent);
    TallyIsTheNumber(s.items, job, ItemFailed);
    TallyIsTheNumber(s.items, job, ItemSkipped);
    NoneOutstanding(s.items, job);
    hide Tally, Rows;
  }

  lemma NoneOutstanding(items: seq<Item>, job: nat)
    ensures Tally(items, job, ItemPending) + Tally(items, job, ItemClaimed) == 0
            <==> forall k :: 0 <= k < |items| && items[k].job == job ==> items[k].status != ItemPending && items[k].status != ItemClaimed
  {
    TallyIsTheNumber(items, job, ItemPending);
    TallyIsTheNumber(items, job, ItemClaimed);
    if k :| 0 <= k < |items| && items[k].job == job && (items[k].status == ItemPending || items[k].status == ItemClaimed) {
      assert k in Rows(items, job, items[k].status);
    } else {
      assert Rows(items, job, ItemPending) == {} && Rows(items, job, ItemClaimed) == {};
    }
  }
}
