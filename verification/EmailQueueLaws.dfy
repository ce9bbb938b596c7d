/** What the queue keeps in every interleaving of admin calls and dispatcher transactions. */
module EmailQueueLaws {
  import opened Wrappers
  import opened EmailQueue
  import opened TextCodec

  // ---- who is emailed ------------------------------------------------------------

  ghost predicate DistinctKeys(rs: seq<Recipient>, key: string -> string) {
    forall i, j :: 0 <= i < j < |rs| ==> key(rs[i].email) != key(rs[j].email)
  }

  lemma {:induction false} FirstOfEachSound(rs: seq<Recipient>, key: string -> string, seen: set<string>)
    ensures forall q :: q in FirstOfEach(rs, key, seen) ==> q in rs && key(q.email) !in seen
    decreases |rs|
  {
    if rs != [] {
      FirstOfEachSound(rs[1..], key, seen);
      FirstOfEachSound(rs[1..], key, seen + {key(rs[0].email)});
    }
  }

  lemma {:induction false} FirstOfEachComplete(rs: seq<Recipient>, key: string -> string, seen: set<string>, r: Recipient)
    requires r in rs && key(r.email) !in seen
    ensures exists q :: q in FirstOfEach(rs, key, seen) && key(q.email) == key(r.email)
    decreases |rs|
  {
    var k := key(rs[0].email);
    if k in seen {
      FirstOfEachComplete(rs[1..], key, seen, r);
    } else {
      assert FirstOfEach(rs, key, seen) == [rs[0]] + FirstOfEach(rs[1..], key, seen + {k});
      if key(r.email) != k {
        FirstOfEachComplete(rs[1..], key, seen + {k}, r);
        var q :| q in FirstOfEach(rs[1..], key, seen + {k}) && key(q.email) == key(r.email);
        assert q in FirstOfEach(rs, key, seen);
      } else {
        assert rs[0] in FirstOfEach(rs, key, seen);
      }
    }
  }

  lemma {:induction false} FirstOfEachDistinct(rs: seq<Recipient>, key: string -> string, seen: set<string>)
    ensures DistinctKeys(FirstOfEach(rs, key, seen), key)
    decreases |rs|
  {
    if rs != [] {
      var k := key(rs[0].email);
      if k in seen {
        FirstOfEachDistinct(rs[1..], key, seen);
      } else {
        FirstOfEachDistinct(rs[1..], key, seen + {k});
        FirstOfEachSound(rs[1..], key, seen + {k});
        var rest := FirstOfEach(rs[1..], key, seen + {k});
        assert forall i :: 0 <= i < |rest| ==> rest[i] in rest;
      }
    }
  }

  lemma {:induction false} ReachableExact(workers: seq<(nat, string)>, valid: string -> bool, r: Recipient)
    ensures r in Reachable(workers, valid)
            <==> r.worker.Some? && (r.worker.value, r.email) in workers && valid(r.email)
  {
    if workers != [] {
      ReachableExact(workers[1..], valid, r);
      assert workers == [workers[0]] + workers[1..];
    }
  }

  lemma {:induction false} TypedExact(typed: seq<string>, r: Recipient)
    ensures r in Typed(typed) <==> r.worker.None? && r.email in typed
  {
    if typed != [] {
      TypedExact(typed[1..], r);
      assert typed == [typed[0]] + typed[1..];
    }
  }

  /** A worker the filter selected, with a valid address, or a typed address. */
  predicate Eligible(r: Recipient, workers: seq<(nat, string)>, typed: seq<string>, rules: Rules) {
    if r.worker.Some? then (r.worker.value, r.email) in workers && rules.valid(r.email) else r.email in typed
  }

  lemma CandidatesAreEligible(workers: seq<(nat, string)>, typed: seq<string>, rules: Rules, r: Recipient)
    ensures r in Reachable(workers, rules.valid) + Typed(typed) <==> Eligible(r, workers, typed, rules)
  {
    ReachableExact(workers, rules.valid, r);
    TypedExact(typed, r);
  }

  function RecipientOf(i: Item): Recipient {
    Recipient(i.worker, i.email)
  }

  /** A broadcast adds one job, whose items are pending, go to eligible recipients only, have
      addresses that differ by more than letter case, and cover every eligible address. */
  lemma BroadcastExact(s: State, title: string, message: string, workers: seq<(nat, string)>, extra: seq<string>,
                       skipWorkers: bool, rules: Rules)
    requires Broadcast(s, title, message, workers, extra, skipWorkers, rules).1.Ok?
    ensures AcceptedExtra(extra, rules.blocked).Some?
    ensures var s' := Broadcast(s, title, message, workers, extra, skipWorkers, rules).0;
            var (asked, typed) := (if skipWorkers then [] else workers, AcceptedExtra(extra, rules.blocked).value);
            && |s'.jobs| == |s.jobs| + 1 && s.items < s'.items
            && (forall k :: |s.items| <= k < |s'.items| ==>
                  s'.items[k].job == |s.jobs| && s'.items[k].status == ItemPending && Eligible(RecipientOf(s'.items[k]), asked, typed, rules))
            && (forall i, k :: |s.items| <= i < k < |s'.items| ==> rules.key(s'.items[i].email) != rules.key(s'.items[k].email))
            && (forall r :: Eligible(r, asked, typed, rules) ==>
                  exists k :: |s.items| <= k < |s'.items| && rules.key(s'.items[k].email) == rules.key(r.email))
  {
    BroadcastBuilds(s, title, message, workers, extra, skipWorkers, rules);
    hide Broadcast, AcceptedExtra, Eligible, BroadcastRecipients, ItemsFor;
    var (asked, typed) := (if skipWorkers then [] else workers, AcceptedExtra(extra, rules.blocked).value);
    BuiltItemsAreEligible(s.items, |s.jobs|, asked, typed, rules);
    BuiltItemsDiffer(s.items, |s.jobs|, asked, typed, rules);
    BuiltItemsCover(s.items, |s.jobs|, asked, typed, rules);
  }

  lemma ItemAt(items: seq<Item>, job: nat, rs: seq<Recipient>, k: nat)
    requires |items| <= k < |items| + |rs|
    ensures |items + ItemsFor(job, rs)| == |items| + |rs|
    ensures var i := (items + ItemsFor(job, rs))[k];
            i.job == job && i.status == ItemPending && RecipientOf(i) == rs[k - |items|] && i.email == rs[k - |items|].email
  {
  }

  lemma BuiltItemsAreEligible(items: seq<Item>, job: nat, workers: seq<(nat, string)>, typed: seq<string>, rules: Rules)
    ensures var all := items + ItemsFor(job, BroadcastRecipients(workers, typed, rules));
            forall k :: |items| <= k < |all| ==>
              all[k].job == job && all[k].status == ItemPending && Eligible(RecipientOf(all[k]), workers, typed, rules)
  {
    var out := BroadcastRecipients(workers, typed, rules);
    assert |ItemsFor(job, out)| == |out|;
    hide BroadcastRecipients, Eligible, ItemsFor, RecipientOf;
    forall k | |items| <= k < |items| + |out|
      ensures (items + ItemsFor(job, out))[k].job == job && (items + ItemsFor(job, out))[k].status == ItemPending
      ensures Eligible(RecipientOf((items + ItemsFor(job, out))[k]), workers, typed, rules)
    {
      ItemAt(items, job, out, k);
      ItemIsEligible(workers, typed, rules, k - |items|);
    }
  }

  lemma BuiltItemsDiffer(items: seq<Item>, job: nat, workers: seq<(nat, string)>, typed: seq<string>, rules: Rules)
    ensures var all := items + ItemsFor(job, BroadcastRecipients(workers, typed, rules));
            forall i, k :: |items| <= i < k < |all| ==> rules.key(all[i].email) != rules.key(all[k].email)
  {
    var out := BroadcastRecipients(workers, typed, rules);
    FirstOfEachDistinct(Reachable(workers, rules.valid) + Typed(typed), rules.key, {});
    assert DistinctKeys(out, rules.key) && |ItemsFor(job, out)| == |out|;
    hide BroadcastRecipients, ItemsFor, RecipientOf;
    forall i, k | |items| <= i < k < |items| + |out|
      ensures rules.key((items + ItemsFor(job, out))[i].email) != rules.key((items + ItemsFor(job, out))[k].email)
    {
      ItemAt(items, job, out, i);
      ItemAt(items, job, out, k);
    }
  }

  lemma BuiltItemsCover(items: seq<Item>, job: nat, workers: seq<(nat, string)>, typed: seq<string>, rules: Rules)
    ensures var all := items + ItemsFor(job, BroadcastRecipients(workers, typed, rules));
            forall r :: Eligible(r, workers, typed, rules) ==>
              exists k :: |items| <= k < |all| && rules.key(all[k].email) == rules.key(r.email)
  {
    hide BroadcastRecipients, ItemsFor, RecipientOf, Eligible;
    var out := BroadcastRecipients(workers, typed, rules);
    var all := items + ItemsFor(job, out);
    forall r | Eligible(r, workers, typed, rules)
      ensures exists k :: |items| <= k < |all| && rules.key(all[k].email) == rules.key(r.email)
    {
      var i := EligibleHasItem(workers, typed, rules, r);
      ItemAt(items, job, out, |items| + i);
      assert rules.key(all[|items| + i].email) == rules.key(r.email);
    }
  }

  lemma ItemIsEligible(workers: seq<(nat, string)>, typed: seq<string>, rules: Rules, k: nat)
    requires k < |BroadcastRecipients(workers, typed, rules)|
    ensures Eligible(BroadcastRecipients(workers, typed, rules)[k], workers, typed, rules)
  {
    hide Reachable, Typed, FirstOfEach, Eligible;
    var out := BroadcastRecipients(workers, typed, rules);
    FirstOfEachSound(Reachable(workers, rules.valid) + Typed(typed), rules.key, {});
    assert out[k] in out;
    CandidatesAreEligible(workers, typed, rules, out[k]);
  }

  lemma EligibleHasItem(workers: seq<(nat, string)>, typed: seq<string>, rules: Rules, r: Recipient) returns (i: nat)
    requires Eligible(r, workers, typed, rules)
    ensures i < |BroadcastRecipients(workers, typed, rules)|
    ensures rules.key(BroadcastRecipients(workers, typed, rules)[i].email) == rules.key(r.email)
  {
    hide Reachable, Typed, FirstOfEach, Eligible;
    var out := BroadcastRecipients(workers, typed, rules);
    CandidatesAreEligible(workers, typed, rules, r);
    FirstOfEachComplete(Reachable(workers, rules.valid) + Typed(typed), rules.key, {}, r);
    var q :| q in out && rules.key(q.email) == rules.key(r.email);
    i :| 0 <= i < |out| && out[i] == q;
  }

  lemma BroadcastBuilds(s: State, title: string, message: string, workers: seq<(nat, string)>, extra: seq<string>,
                        skipWorkers: bool, rules: Rules)
    requires Broadcast(s, title, message, workers, extra, skipWorkers, rules).1.Ok?
    ensures AcceptedExtra(extra, rules.blocked).Some?
    ensures var s' := Broadcast(s, title, message, workers, extra, skipWorkers, rules).0;
            var out := BroadcastRecipients(if skipWorkers then [] else workers, AcceptedExtra(extra, rules.blocked).value, rules);
            out != [] && |s'.jobs| == |s.jobs| + 1 && s'.items == s.items + ItemsFor(|s.jobs|, out)
  {
    hide Strip, AcceptedExtra, Reachable, Typed, FirstOfEach, BroadcastRecipients;
  }

  ghost predicate DistinctWorkers(rs: seq<Recipient>) {
    forall i, j :: 0 <= i < j < |rs| ==> rs[i].worker != rs[j].worker
  }

  /** A payslip job has one item per worker, and exactly the eligible workers. */
  lemma {:induction false} PayslipsExact(summaries: seq<nat>, known: set<nat>, already: set<nat>,
                                         email: nat -> string, valid: string -> bool, seen: set<nat>)
    ensures var out := PayslipRecipients(summaries, known, already, email, valid, seen);
            && DistinctWorkers(out)
            && forall r :: r in out <==> (r.worker.Some? && r.email == email(r.worker.value)
                                          && r.worker.value in summaries && r.worker.value in known && r.worker.value !in seen
                                          && r.worker.value !in already && valid(r.email))
    decreases |summaries|
  {
    if summaries != [] {
      var w := summaries[0];
      assert summaries == [w] + summaries[1..];
      if w !in known || w in seen {
        PayslipsExact(summaries[1..], known, already, email, valid, seen);
      } else {
        PayslipsExact(summaries[1..], known, already, email, valid, seen + {w});
      }
    }
  }

  // ---- conservation ---------------------------------------------------------------

  function Count(items: seq<Item>, job: nat): nat {
    if items == [] then 0
    else Count(items[..|items| - 1], job) + if items[|items| - 1].job == job then 1 else 0
  }

  /** Every item of the job is in exactly one of the five states. */
  lemma {:induction false} TalliesPartition(items: seq<Item>, job: nat)
    ensures Tally(items, job, ItemSent) + Tally(items, job, ItemFailed) + Tally(items, job, ItemSkipped)
            + (Tally(items, job, ItemPending) + Tally(items, job, ItemClaimed)) == Count(items, job)
  {
    if items != [] {
      TalliesPartition(items[..|items| - 1], job);
    }
  }

  ghost predicate SameRecipients(a: seq<Item>, b: seq<Item>) {
    |a| == |b| && forall k :: 0 <= k < |a| ==> a[k].job == b[k].job && a[k].email == b[k].email && a[k].worker == b[k].worker
  }

  lemma {:induction false} CountUnchanged(a: seq<Item>, b: seq<Item>, job: nat)
    requires SameRecipients(a, b)
    ensures Count(a, job) == Count(b, job)
  {
    if a != [] {
      CountUnchanged(a[..|a| - 1], b[..|b| - 1], job);
    }
  }

  lemma {:induction false} CountBuilt(items: seq<Item>, n: nat, rs: seq<Recipient>, job: nat)
    requires forall k :: 0 <= k < |items| ==> items[k].job < n
    ensures Count(items + ItemsFor(n, rs), job) == Count(items, job) + if job == n then |rs| else 0
    ensures job >= n ==> Count(items, job) == 0
  {
    if rs == [] {
      assert items + ItemsFor(n, rs) == items;
      CountBelow(items, n, job);
    } else {
      var rs' := rs[..|rs| - 1];
      CountBuilt(items, n, rs', job);
      assert (items + ItemsFor(n, rs))[..|items| + |rs| - 1] == items + ItemsFor(n, rs');
    }
  }

  lemma {:induction false} CountBelow(items: seq<Item>, n: nat, job: nat)
    requires forall k :: 0 <= k < |items| ==> items[k].job < n
    ensures job >= n ==> Count(items, job) == 0
  {
    if items != [] {
      CountBelow(items[..|items| - 1], n, job);
    }
  }

  ghost predicate Consistent(s: State) {
    && (forall k :: 0 <= k < |s.items| ==> s.items[k].job < |s.jobs|)
    && (forall j :: 0 <= j < |s.jobs| ==> Count(s.items, j) == s.jobs[j].total)
    && FinishedIffSettled(s)
  }

  /** Every step but a build leaves the recipients alone, and every step the earlier totals. */
  ghost predicate SameShape(s: State, s': State, built: bool) {
    && (!built ==> SameRecipients(s.items, s'.items) && |s'.jobs| == |s.jobs|)
    && |s.jobs| <= |s'.jobs| && forall j :: 0 <= j < |s.jobs| ==> s'.jobs[j].total == s.jobs[j].total
  }

  lemma StepShape(s: State, e: Event)
    ensures SameShape(s, Step(s, e), e.OnBuild?)
  {
    hide Tally;
    if ByAdmin(e) {
      AdminShape(s, e);
    } else {
      DispatcherShape(s, e);
    }
  }

  lemma AdminShape(s: State, e: Event)
    requires ByAdmin(e)
    ensures SameShape(s, Step(s, e), e.OnBuild?)
  {
  }

  lemma BulkStepShape(s: State, job: nat, chosen: set<nat>, now: int)
    ensures SameRecipients(s.items, Claim(s, job, chosen, now).items) && Claim(s, job, chosen, now).jobs == s.jobs
    ensures SameRecipients(s.items, Reap(s, now).items) && Reap(s, now).jobs == s.jobs
  {
  }

  lemma ItemStepShape(s: State, item: nat, o: Outcome)
    ensures SameRecipients(s.items, Settle(s, item, o).items) && Settle(s, item, o).jobs == s.jobs
    ensures SameRecipients(s.items, Release(s, item).items) && Release(s, item).jobs == s.jobs
  {
  }

  /** Starting and recounting touch the job row alone. */
  lemma JobStepShape(s: State, job: nat, now: int)
    ensures Start(s, job).items == s.items && Start(s, job).flight == s.flight
    ensures Recount(s, job, now).items == s.items && Recount(s, job, now).flight == s.flight
    ensures |Start(s, job).jobs| == |s.jobs| && |Recount(s, job, now).jobs| == |s.jobs|
    ensures forall j :: 0 <= j < |s.jobs| ==>
              && Start(s, job).jobs[j].total == s.jobs[j].total && Recount(s, job, now).jobs[j].total == s.jobs[j].total
              && (Start(s, job).jobs[j].status == JobCancelled ==> s.jobs[j].status == JobCancelled)
              && (Recount(s, job, now).jobs[j].status == JobCancelled ==> s.jobs[j].status == JobCancelled)
  {
    hide Tally;
  }

  lemma DispatcherShape(s: State, e: Event)
    requires !ByAdmin(e)
    ensures SameShape(s, Step(s, e), e.OnBuild?)
    ensures forall j :: 0 <= j < |s.jobs| && Step(s, e).jobs[j].status == JobCancelled ==> s.jobs[j].status == JobCancelled
  {
    hide Claim, Reap, Settle, Release, Start, Recount;
    match e {
      case OnClaim(job, chosen, now) => BulkStepShape(s, job, chosen, now);
      case OnReap(cutoff) => BulkStepShape(s, 0, {}, cutoff);
      case OnSettle(item, o) => ItemStepShape(s, item, o);
      case OnRelease(item) => ItemStepShape(s, item, Broken);
      case OnStart(job) => JobStepShape(s, job, 0);
      case OnRecount(job, now) => JobStepShape(s, job, now);
      case _ =>
    }
  }

  ghost predicate FinishedIffSettled(s: State) {
    && (forall j :: 0 <= j < |s.jobs| ==>
          (s.jobs[j].finishedAt.None? <==> s.jobs[j].status == JobQueued || s.jobs[j].status == JobRunning))
    && (forall i :: i in s.flight ==> i < |s.items|)
  }

  lemma AdminKeepsFinishedAt(s: State, e: Event)
    requires FinishedIffSettled(s) && ByAdmin(e)
    ensures FinishedIffSettled(Step(s, e))
  {
  }

  lemma JobStepKeepsFinishedAt(s: State, job: nat, now: int)
    requires FinishedIffSettled(s)
    ensures FinishedIffSettled(Start(s, job)) && FinishedIffSettled(Recount(s, job, now))
  {
    hide Tally;
  }

  /** Only claiming puts anything into a dispatcher's hands, and only pending items. */
  lemma FlightGrowsByClaims(s: State, e: Event, i: nat)
    requires !ByAdmin(e) && i in Step(s, e).flight && i !in s.flight
    ensures e.OnClaim? && i < |s.items| && s.items[i].status == ItemPending
  {
    hide Tally, ClaimItems, ReapItems;
  }

  lemma DispatcherKeepsFinishedAt(s: State, e: Event)
    requires FinishedIffSettled(s) && !ByAdmin(e)
    ensures FinishedIffSettled(Step(s, e))
  {
    hide Claim, Reap, Settle, Release, Start, Recount;
    DispatcherShape(s, e);
    forall i | i in Step(s, e).flight
      ensures i < |Step(s, e).items|
    {
      if i !in s.flight {
        FlightGrowsByClaims(s, e, i);
      }
    }
    match e {
      case OnClaim(job, chosen, now) => BulkStepShape(s, job, chosen, now);
      case OnReap(cutoff) => BulkStepShape(s, 0, {}, cutoff);
      case OnSettle(item, o) => ItemStepShape(s, item, o);
      case OnRelease(item) => ItemStepShape(s, item, Broken);
      case OnStart(job) => JobStepKeepsFinishedAt(s, job, 0);
      case OnRecount(job, now) => JobStepKeepsFinishedAt(s, job, now);
      case _ =>
    }
  }

  lemma StepKeepsConsistent(s: State, e: Event)
    requires Consistent(s)
    ensures Consistent(Step(s, e))
  {
    hide Step;
    var s' := Step(s, e);
    if e.OnBuild? {
      BuildKeepsConsistent(s, e);
    } else {
      StepShape(s, e);
      if ByAdmin(e) {
        AdminKeepsFinishedAt(s, e);
      } else {
        DispatcherKeepsFinishedAt(s, e);
      }
      forall j | 0 <= j < |s'.jobs|
        ensures Count(s'.items, j) == s'.jobs[j].total
      {
        CountUnchanged(s.items, s'.items, j);
      }
    }
  }

  lemma BuildKeepsConsistent(s: State, e: Event)
    requires Consistent(s) && e.OnBuild?
    ensures Consistent(Step(s, e))
  {
    var s' := Step(s, e);
    forall j | 0 <= j < |s'.jobs|
      ensures Count(s'.items, j) == s'.jobs[j].total
    {
      CountBuilt(s.items, |s.jobs|, e.recipients, j);
    }
  }

  lemma {:induction false} RunKeepsConsistent(s: State, es: seq<Event>)
    requires Consistent(s)
    ensures Consistent(Run(s, es))
    decreases |es|
  {
    hide Consistent;
    if es != [] {
      StepKeepsConsistent(s, es[0]);
      RunKeepsConsistent(Step(s, es[0]), es[1..]);
    }
  }

  /** In every reachable state the reported sent, failed, skipped and pending of every job add
      up to its total, and it has a finishing time exactly when it is not queued or running. */
  lemma QueueConserved(es: seq<Event>, job: nat)
    requires job < |Run(EMPTY, es).jobs|
    ensures var s := Run(EMPTY, es);
            && Tally(s.items, job, ItemSent) + Tally(s.items, job, ItemFailed) + Tally(s.items, job, ItemSkipped)
               + (Tally(s.items, job, ItemPending) + Tally(s.items, job, ItemClaimed)) == s.jobs[job].total
            && (s.jobs[job].finishedAt.None? <==> s.jobs[job].status == JobQueued || s.jobs[job].status == JobRunning)
  {
    RunKeepsConsistent(EMPTY, es);
    TalliesPartition(Run(EMPTY, es).items, job);
  }

  // ---- cancelled means stopped ------------------------------------------------------

  /** "Stop a job": a cancelled job has nothing left to send. */
  ghost predicate CancelledAreClean(s: State) {
    forall k :: 0 <= k < |s.items| && s.items[k].job < |s.jobs| && s.jobs[s.items[k].job].status == JobCancelled
      ==> !Outstanding(s.items[k])
  }

  /** The dispatcher settles an item it already held when the job was cancelled, the provider
      having refused it with attempts to spare: it goes back to pending. */
  ghost predicate LateRequeue(s: State, e: Event) {
    && e.OnSettle? && e.item in s.flight && e.item < |s.items| && s.items[e.item].job < |s.jobs|
    && s.jobs[s.items[e.item].job].status == JobCancelled
    && e.outcome.Refused? && s.items[e.item].attempts < MAX_ATTEMPTS
  }

  lemma AdminKeepsCancelledClean(s: State, e: Event)
    requires Consistent(s) && CancelledAreClean(s) && ByAdmin(e)
    ensures CancelledAreClean(Step(s, e))
  {
    hide Count;
    if e.OnResend? && Resendable(s, e.log) && s.logs[e.log].value.job.Some? {
      ItemOfFound(s.items, s.logs[e.log].value.job.value, s.logs[e.log].value.email, 0);
    }
  }

  lemma StepKeepsCancelledClean(s: State, e: Event)
    requires Consistent(s) && CancelledAreClean(s)
    ensures CancelledAreClean(Step(s, e)) <==> !LateRequeue(s, e)
  {
    hide Tally, Count;
    if ByAdmin(e) {
      AdminKeepsCancelledClean(s, e);
    } else if LateRequeue(s, e) {
      var s' := Step(s, e);
      assert Outstanding(s'.items[e.item]) && s'.jobs[s'.items[e.item].job].status == JobCancelled;
    } else {
      DispatcherKeepsCancelledClean(s, e);
    }
  }

  /** The dispatcher touches a settled item only by settling it once more. */
  lemma SettledItemsStay(s: State, e: Event, k: nat)
    requires !ByAdmin(e) && k < |s.items| && !Outstanding(s.items[k])
    ensures k < |Step(s, e).items|
    ensures Step(s, e).items[k] == s.items[k]
            || (e.OnSettle? && e.item == k && k in s.flight && Step(s, e).items[k] == Settled(s.items[k], e.outcome))
  {
    hide Tally;
  }

  lemma DispatcherKeepsCancelledClean(s: State, e: Event)
    requires Consistent(s) && CancelledAreClean(s) && !ByAdmin(e) && !LateRequeue(s, e)
    ensures CancelledAreClean(Step(s, e))
  {
    DispatcherShape(s, e);
    var s' := Step(s, e);
    forall k | 0 <= k < |s'.items| && s'.items[k].job < |s'.jobs| && s'.jobs[s'.items[k].job].status == JobCancelled
      ensures !Outstanding(s'.items[k])
    {
      hide Step, Count;
      SettledItemsStay(s, e, k);
    }
  }

  lemma AdminIsNotLate(s: State, e: Event)
    requires ByAdmin(e)
    ensures !LateRequeue(s, e)
  {
  }

  ghost predicate CleanThroughout(s: State, es: seq<Event>)
    decreases |es|
  {
    CancelledAreClean(s) && (es != [] ==> CleanThroughout(Step(s, es[0]), es[1..]))
  }

  ghost predicate SometimeLate(s: State, es: seq<Event>)
    decreases |es|
  {
    es != [] && (LateRequeue(s, es[0]) || SometimeLate(Step(s, es[0]), es[1..]))
  }

  /** Cancelled jobs stay clean all through a run exactly when no late requeue happens in it. */
  lemma {:induction false} CleanUnlessLate(s: State, es: seq<Event>)
    requires Consistent(s) && CancelledAreClean(s)
    ensures CleanThroughout(s, es) <==> !SometimeLate(s, es)
    decreases |es|
  {
    hide Step, Consistent, CancelledAreClean, LateRequeue;
    if es != [] {
      StepKeepsConsistent(s, es[0]);
      StepKeepsCancelledClean(s, es[0]);
      if CancelledAreClean(Step(s, es[0])) {
        CleanUnlessLate(Step(s, es[0]), es[1..]);
      }
    }
  }

  lemma RunOfFour(s: State, a: Event, b: Event, c: Event, d: Event)
    ensures Run(s, [a, b, c, d]) == Step(Step(Step(Step(s, a), b), c), d)
  {
    hide Step;
    assert [a, b, c, d][1..] == [b, c, d] && [b, c, d][1..] == [c, d] && [c, d][1..] == [d] && [d][1..] == [];
    var s1 := Step(s, a);
    var s2 := Step(s1, b);
    var s3 := Step(s2, c);
    assert Run(s3, [d]) == Step(s3, d);
    assert Run(s2, [c, d]) == Run(s3, [d]);
    assert Run(s1, [b, c, d]) == Run(s2, [c, d]);
  }

  lemma ClaimOne(s: State, now: int)
    requires |s.items| == 1 && s.items[0].job == 0 && s.items[0].status == ItemPending
    ensures var s' := Claim(s, 0, {0}, now);
            && s'.items == [s.items[0].(status := ItemClaimed, attempts := s.items[0].attempts + 1, claimedAt := now)]
            && 0 in s'.flight && s'.jobs == s.jobs
  {
  }

  /** It does happen: a message is being sent when its job is cancelled, and the provider
      refuses it. The item is pending again, in a job no dispatcher will list. */
  lemma LateRequeueHappens(r: Recipient, now: int)
    ensures var s := Run(EMPTY, [OnBuild([r], 0), OnClaim(0, {0}, now), OnCancel(0, now), OnSettle(0, Refused)]);
            |s.jobs| == 1 && s.jobs[0].status == JobCancelled && |s.items| == 1 && s.items[0].status == ItemPending
            && !CancelledAreClean(s)
  {
    var es := [OnBuild([r], 0), OnClaim(0, {0}, now), OnCancel(0, now), OnSettle(0, Refused)];
    var item := Item(0, r.worker, r.email, ItemPending, 0, 0);
    var s1, s2, s3 := Step(EMPTY, es[0]), Step(Step(EMPTY, es[0]), es[1]), Step(Step(Step(EMPTY, es[0]), es[1]), es[2]);
    assert s1.items == [item] && s1.jobs == [Job(JobQueued, 1, 0, 0, 0, None)];
    ClaimOne(s1, now);
    assert s3.items == [item.(status := ItemSkipped, attempts := 1, claimedAt := now)] && s3.flight == s2.flight;
    RunOfFour(EMPTY, es[0], es[1], es[2], es[3]);
  }

  /** No item of a job is in a dispatcher's hands. */
  ghost predicate Quiet(s: State, job: nat) {
    forall i :: i in s.flight && i < |s.items| ==> s.items[i].job != job
  }

  ghost predicate CancelsWhenQuiet(s: State, es: seq<Event>)
    decreases |es|
  {
    es != [] ==> (es[0].OnCancel? ==> Quiet(s, es[0].job)) && CancelsWhenQuiet(Step(s, es[0]), es[1..])
  }

  ghost predicate CancelledAreQuiet(s: State) {
    forall j :: 0 <= j < |s.jobs| && s.jobs[j].status == JobCancelled ==> Quiet(s, j)
  }

  lemma AdminKeepsCancelledQuiet(s: State, e: Event)
    requires Consistent(s) && CancelledAreQuiet(s) && ByAdmin(e)
    requires e.OnCancel? ==> Quiet(s, e.job)
    ensures CancelledAreQuiet(Step(s, e))
  {
    hide Count;
    if e.OnBuild? {
      assert forall k :: 0 <= k < |s.items| ==> Step(s, e).items[k] == s.items[k];
    } else {
      AdminShape(s, e);
    }
  }

  lemma DispatcherKeepsCancelledQuiet(s: State, e: Event)
    requires Consistent(s) && CancelledAreClean(s) && CancelledAreQuiet(s) && !ByAdmin(e)
    ensures CancelledAreQuiet(Step(s, e)) && !LateRequeue(s, e)
  {
    DispatcherShape(s, e);
    var s' := Step(s, e);
    forall j, i | 0 <= j < |s'.jobs| && s'.jobs[j].status == JobCancelled && i in s'.flight && i < |s'.items|
      ensures s'.items[i].job != j
    {
      hide Step, Count;
      if i !in s.flight {
        FlightGrowsByClaims(s, e, i);
      }
    }
  }

  /** What an admin can do about it: cancelling only when nothing of the job is being sent
      keeps every cancelled job clean, whatever the dispatchers do. */
  lemma {:induction false} QuietCancelsStayClean(s: State, es: seq<Event>)
    requires Consistent(s) && CancelledAreClean(s) && CancelledAreQuiet(s) && CancelsWhenQuiet(s, es)
    ensures CleanThroughout(s, es)
    decreases |es|
  {
    hide Step, Consistent, CancelledAreClean, LateRequeue, CancelledAreQuiet, Quiet;
    if es != [] {
      if ByAdmin(es[0]) {
        AdminKeepsCancelledQuiet(s, es[0]);
        AdminIsNotLate(s, es[0]);
      } else {
        DispatcherKeepsCancelledQuiet(s, es[0]);
      }
      StepKeepsConsistent(s, es[0]);
      StepKeepsCancelledClean(s, es[0]);
      QuietCancelsStayClean(Step(s, es[0]), es[1..]);
    }
  }

  // ---- sent is sent -------------------------------------------------------------------

  /** No admin call ever changes an item that was sent. */
  lemma AdminKeepsSent(s: State, e: Event, item: nat)
    requires ByAdmin(e) && item < |s.items| && s.items[item].status == ItemSent
    ensures item < |Step(s, e).items| && Step(s, e).items[item] == s.items[item]
  {
  }

  lemma StepKeepsSettledSent(s: State, e: Event, item: nat)
    requires item < |s.items| && s.items[item].status == ItemSent && item !in s.flight
    ensures item < |Step(s, e).items| && Step(s, e).items[item] == s.items[item] && item !in Step(s, e).flight
  {
    hide Step;
    if ByAdmin(e) {
      AdminKeepsSent(s, e, item);
      AdminKeepsFlight(s, e);
    } else {
      SettledItemsStay(s, e, item);
      if item in Step(s, e).flight {
        FlightGrowsByClaims(s, e, item);
      }
    }
  }

  lemma AdminKeepsFlight(s: State, e: Event)
    requires ByAdmin(e)
    ensures Step(s, e).flight == s.flight
  {
  }

  /** Nor does anything else, once no dispatcher holds it: it is never sent again. */
  lemma {:induction false} SentIsFinal(s: State, es: seq<Event>, item: nat)
    requires item < |s.items| && s.items[item].status == ItemSent && item !in s.flight
    ensures item < |Run(s, es).items| && Run(s, es).items[item] == s.items[item]
    decreases |es|
  {
    hide Step;
    if es != [] {
      StepKeepsSettledSent(s, es[0], item);
      SentIsFinal(Step(s, es[0]), es[1..], item);
    }
  }

  // ---- resending failures one by one ---------------------------------------------------

  lemma {:induction false} ItemOfFound(items: seq<Item>, job: nat, email: string, from: nat)
    requires from <= |items|
    ensures match ItemOf(items, job, email, from)
            case Some(k) => from <= k < |items| && items[k].job == job && items[k].email == email
                            && forall i :: from <= i < k ==> !(items[i].job == job && items[i].email == email)
            case None => forall k :: from <= k < |items| ==> !(items[k].job == job && items[k].email == email)
    decreases |items| - from
  {
    if from < |items| && !(items[from].job == job && items[from].email == email) {
      ItemOfFound(items, job, email, from + 1);
    }
  }

  /** Resending the listed log entries, in the given order. */
  function ResendAll(s: State, logs: seq<nat>): State
    decreases |logs|
  {
    if logs == [] then s else ResendAll(Resend(s, logs[0], true).0, logs[1..])
  }

  /** How often resending puts the item back into the queue. */
  function Requeues(s: State, logs: seq<nat>, item: nat): nat
    decreases |logs|
  {
    if logs == [] then 0
    else
      var s' := Resend(s, logs[0], true).0;
      (if item < |s.items| && item < |s'.items| && !Outstanding(s.items[item]) && Outstanding(s'.items[item]) then 1 else 0)
      + Requeues(s', logs[1..], item)
  }

  /** How often the entry is accepted for resending. */
  function Acceptances(s: State, logs: seq<nat>, log: nat): nat
    decreases |logs|
  {
    if logs == [] then 0
    else (if logs[0] == log && Resend(s, log, true).1.Ok? then 1 else 0)
         + Acceptances(Resend(s, logs[0], true).0, logs[1..], log)
  }

  /** A failed entry of the item's own. */
  ghost predicate FailureOf(s: State, item: nat, log: nat)
    requires item < |s.items|
  {
    Resendable(s, log) && s.logs[log].value.job == Some(s.items[item].job) && s.logs[log].value.email == s.items[item].email
  }

  /** The item is the first of its job with its address: the one a log entry stands for. */
  predicate FirstOfAddress(items: seq<Item>, item: nat)
    requires item < |items|
  {
    forall i :: 0 <= i < item ==> !(items[i].job == items[item].job && items[i].email == items[item].email)
  }

  lemma ResendEffect(s: State, log: nat, item: nat)
    requires Consistent(s) && item < |s.items|
    ensures var s' := Resend(s, log, true).0;
            && SameRecipients(s.items, s'.items)
            && s'.items[item] == (if FailureOf(s, item, log) && FirstOfAddress(s.items, item)
                                     && s.items[item].status != ItemSent && !Outstanding(s.items[item])
                                  then Requeued(s.items[item]) else s.items[item])
  {
    hide Count;
    if Resendable(s, log) && s.logs[log].value.job.Some? {
      ItemOfFound(s.items, s.logs[log].value.job.value, s.logs[log].value.email, 0);
    }
  }

  /** Resending a failure of a settled, unsent item queues that item exactly when it is the
      first of its job with its address; otherwise the failure is consumed for another. */
  lemma ResendReachesIff(s: State, log: nat, item: nat)
    requires Consistent(s) && item < |s.items| && FailureOf(s, item, log)
    requires s.items[item].status == ItemFailed || s.items[item].status == ItemSkipped
    ensures Resend(s, log, true).1.Ok? && |Resend(s, log, true).0.items| == |s.items|
    ensures Resend(s, log, true).0.items[item] == Requeued(s.items[item]) <==> FirstOfAddress(s.items, item)
  {
    hide Consistent, Resend;
    ResendEffect(s, log, item);
    ResendLogs(s, log, item);
  }

  lemma ResendLogs(s: State, log: nat, item: nat)
    requires Consistent(s) && item < |s.items|
    ensures var (s', answer) := Resend(s, log, true);
            && |s.logs| <= |s'.logs|
            && (forall l :: 0 <= l < |s.logs| ==> s'.logs[l] == if l == log && answer.Ok? then None else s.logs[l])
            && (forall l :: |s.logs| <= l < |s'.logs| ==> s'.logs[l].Some? && s'.logs[l].value.job == None)
            && (FailureOf(s, item, log) ==> answer.Ok?)
  {
    hide Count;
    if Resendable(s, log) && s.logs[log].value.job.Some? {
      ItemOfFound(s.items, s.logs[log].value.job.value, s.logs[log].value.email, 0);
    }
  }

  /** Resending any list of failures in any order: the item is queued once, if it was settled
      unsent, is the first with its address and one of the failures is its own, and otherwise
      not at all; a sent item stays as it is. */
  lemma {:induction false} ResendsQueueOnce(s: State, logs: seq<nat>, item: nat)
    requires Consistent(s) && item < |s.items|
    ensures var i := s.items[item];
            Requeues(s, logs, item) == (if i.status == ItemSent || Outstanding(i) || !FirstOfAddress(s.items, item) then 0
                                        else if exists k :: 0 <= k < |logs| && FailureOf(s, item, logs[k]) then 1 else 0)
    ensures s.items[item].status == ItemSent ==> item < |ResendAll(s, logs).items| && ResendAll(s, logs).items[item] == s.items[item]
    decreases |logs|
  {
    hide Consistent, Resend, Requeued, FirstOfAddress;
    if logs != [] {
      var s', l := Resend(s, logs[0], true).0, logs[0];
      StepKeepsConsistent(s, OnResend(l, true));
      ResendEffect(s, l, item);
      ResendLogs(s, l, item);
      FirstStays(s.items, s'.items, item);
      ResendsQueueOnce(s', logs[1..], item);
      RequeuedIsOutstanding(s.items[item]);
      forall k | 1 <= k < |logs| && !FailureOf(s, item, l)
        ensures FailureOf(s, item, logs[k]) <==> FailureOf(s', item, logs[1..][k - 1])
      {
      }
    }
  }

  lemma FirstStays(a: seq<Item>, b: seq<Item>, item: nat)
    requires SameRecipients(a, b) && item < |a|
    ensures FirstOfAddress(a, item) <==> FirstOfAddress(b, item)
  {
  }

  lemma RequeuedIsOutstanding(i: Item)
    ensures Outstanding(Requeued(i)) && Requeued(i).job == i.job && Requeued(i).email == i.email
  {
  }

  lemma {:induction false} GoneStaysGone(s: State, logs: seq<nat>, log: nat)
    requires Consistent(s) && log < |s.logs| && s.logs[log].None?
    ensures Acceptances(s, logs, log) == 0
    decreases |logs|
  {
    hide Consistent, Count;
    if logs != [] {
      StepKeepsConsistent(s, OnResend(logs[0], true));
      GoneStaysGone(Resend(s, logs[0], true).0, logs[1..], log);
    }
  }

  /** Each of an item's failures is consumed exactly once, however often it is listed. */
  lemma {:induction false} FailureConsumedOnce(s: State, logs: seq<nat>, item: nat, log: nat)
    requires Consistent(s) && item < |s.items| && FailureOf(s, item, log)
    ensures Acceptances(s, logs, log) == if log in logs then 1 else 0
    decreases |logs|
  {
    hide Consistent, Resend;
    if logs != [] {
      var s', l := Resend(s, logs[0], true).0, logs[0];
      StepKeepsConsistent(s, OnResend(l, true));
      ResendEffect(s, l, item);
      ResendLogs(s, l, item);
      if l == log {
        GoneStaysGone(s', logs[1..], log);
      } else {
        FailureConsumedOnce(s', logs[1..], item, log);
      }
    }
  }

  /** A later item with the same address can never be resent: every entry with that address
      stands for the first one. */
  lemma SharedAddressIsStuck(s: State, log: nat, delivered: bool, first: nat, later: nat)
    requires first < later < |s.items|
    requires s.items[first].job == s.items[later].job && s.items[first].email == s.items[later].email
    ensures later < |Resend(s, log, delivered).0.items| && Resend(s, log, delivered).0.items[later] == s.items[later]
  {
    if Resendable(s, log) && s.logs[log].value.job.Some? {
      ItemOfFound(s.items, s.logs[log].value.job.value, s.logs[log].value.email, 0);
    }
  }

  // ---- a broadcast's addresses, from then on ----------------------------------------------

  /** Items keep their job and recipient, and new ones belong to new jobs. */
  ghost predicate KeepsRecipients(s: State, s': State) {
    && |s.items| <= |s'.items| && |s.jobs| <= |s'.jobs|
    && (forall k :: 0 <= k < |s.items| ==> s'.items[k].job == s.items[k].job && RecipientOf(s'.items[k]) == RecipientOf(s.items[k]))
    && (forall k :: |s.items| <= k < |s'.items| ==> s'.items[k].job >= |s.jobs|)
  }

  lemma StepKeepsRecipients(s: State, e: Event)
    ensures KeepsRecipients(s, Step(s, e))
  {
    if !e.OnBuild? {
      hide Step;
      StepShape(s, e);
    }
  }

  lemma {:induction false} RunKeepsRecipients(s: State, es: seq<Event>)
    ensures KeepsRecipients(s, Run(s, es))
    decreases |es|
  {
    hide Step;
    if es != [] {
      StepKeepsRecipients(s, es[0]);
      RunKeepsRecipients(Step(s, es[0]), es[1..]);
    }
  }

  /** Through every later run, the items of a broadcast's job are the ones it was built with,
      their addresses all different; so each is the first with its address, and resending one
      of its failures reaches it. */
  lemma BroadcastStaysUnique(s: State, title: string, message: string, workers: seq<(nat, string)>, extra: seq<string>,
                             skipWorkers: bool, rules: Rules, es: seq<Event>)
    requires Consistent(s) && Broadcast(s, title, message, workers, extra, skipWorkers, rules).1.Ok?
    ensures var built := Broadcast(s, title, message, workers, extra, skipWorkers, rules).0;
            var end := Run(built, es);
            && Consistent(end) && |built.items| <= |end.items|
            && (forall k :: 0 <= k < |end.items| ==>
                  (end.items[k].job == |s.jobs| <==> |s.items| <= k < |built.items|))
            && (forall k :: |s.items| <= k < |built.items| ==> RecipientOf(end.items[k]) == RecipientOf(built.items[k]))
            && (forall k :: |s.items| <= k < |built.items| ==> FirstOfAddress(end.items, k))
  {
    BroadcastExact(s, title, message, workers, extra, skipWorkers, rules);
    BroadcastIsABuild(s, title, message, workers, extra, skipWorkers, rules);
    var built := Broadcast(s, title, message, workers, extra, skipWorkers, rules).0;
    hide Broadcast, AcceptedExtra, Eligible, Run, Count;
    RunKeepsConsistent(built, es);
    RunKeepsRecipients(built, es);
    var end := Run(built, es);
    forall k | 0 <= k < |end.items|
      ensures end.items[k].job == |s.jobs| <==> |s.items| <= k < |built.items|
    {
      if k < |s.items| {
        assert built.items[k] == s.items[k];
      }
    }
    forall k | |s.items| <= k < |built.items|
      ensures FirstOfAddress(end.items, k)
    {
      forall i | 0 <= i < k
        ensures !(end.items[i].job == end.items[k].job && end.items[i].email == end.items[k].email)
      {
        if |s.items| <= i {
          assert RecipientOf(end.items[i]) == RecipientOf(built.items[i]) && RecipientOf(end.items[k]) == RecipientOf(built.items[k]);
        }
      }
    }
  }

  lemma BroadcastIsABuild(s: State, title: string, message: string, workers: seq<(nat, string)>, extra: seq<string>,
                          skipWorkers: bool, rules: Rules)
    requires Consistent(s) && Broadcast(s, title, message, workers, extra, skipWorkers, rules).1.Ok?
    ensures Consistent(Broadcast(s, title, message, workers, extra, skipWorkers, rules).0)
  {
    var typed := AcceptedExtra(extra, rules.blocked).value;
    var asked := if skipWorkers then [] else workers;
    var reachable := |Reachable(asked, rules.valid)|;
    hide Consistent, Count, Strip, AcceptedExtra, Reachable, BroadcastRecipients;
    StepKeepsConsistent(s, OnBuild(BroadcastRecipients(asked, typed, rules), if reachable <= |asked| then |asked| - reachable else 0));
  }
}
