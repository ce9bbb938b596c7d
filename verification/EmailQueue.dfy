/** The bulk email queue: the admin endpoints of backend/routers/communications.py and the
    database transactions of the dispatcher, backend/services/email_dispatch.py, which may be
    running in several processes. Rows are addressed by index; a deleted log entry is None. */
module EmailQueue {
  import opened Wrappers
  import opened TextCodec

  datatype JobStatus = JobQueued | JobRunning | JobCompleted | JobCancelled

  datatype Job = Job(status: JobStatus, total: nat, sent: nat, failed: nat, skipped: nat, finishedAt: Option<int>)

  datatype ItemStatus = ItemPending | ItemClaimed | ItemSent | ItemFailed | ItemSkipped

  datatype Item = Item(job: nat, worker: Option<nat>, email: string, status: ItemStatus, attempts: nat, claimedAt: int)

  /** One send attempt; `job` is None for a direct message, whose `content` may be kept. */
  datatype Log = Log(job: Option<nat>, email: string, failed: bool, otp: bool, content: bool)

  /** `flight` holds, once per dispatcher, the items whose sending is under way in its memory. */
  datatype State = State(jobs: seq<Job>, items: seq<Item>, logs: seq<Option<Log>>, flight: multiset<nat>)

  datatype Error = BadRequest | NotFound

  type Answer = Result<(), Error>

  const MAX_ATTEMPTS := 3

  // ---- recipients ------------------------------------------------------------------

  /** A recipient: a worker's address or a typed one. */
  datatype Recipient = Recipient(worker: Option<nat>, email: string)

  /** The first recipient of each address not yet in `seen`, addresses compared by `key`. */
  function FirstOfEach(rs: seq<Recipient>, key: string -> string, seen: set<string>): seq<Recipient> {
    if rs == [] then []
    else if key(rs[0].email) in seen then FirstOfEach(rs[1..], key, seen)
    else [rs[0]] + FirstOfEach(rs[1..], key, seen + {key(rs[0].email)})
  }

  /** The workers the filter selected, with the addresses of those that have a valid one. */
  function Reachable(workers: seq<(nat, string)>, valid: string -> bool): seq<Recipient> {
    if workers == [] then []
    else (if valid(workers[0].1) then [Recipient(Some(workers[0].0), workers[0].1)] else []) + Reachable(workers[1..], valid)
  }

  function Typed(extra: seq<string>): seq<Recipient> {
    if extra == [] then [] else [Recipient(None, extra[0])] + Typed(extra[1..])
  }

  /** The worker of each summary, once, if it was not emailed before and has a valid address. */
  function PayslipRecipients(summaries: seq<nat>, known: set<nat>, already: set<nat>,
                             email: nat -> string, valid: string -> bool, seen: set<nat>): seq<Recipient> {
    if summaries == [] then []
    else
      var w := summaries[0];
      if w !in known || w in seen then PayslipRecipients(summaries[1..], known, already, email, valid, seen)
      else
        (if w !in already && valid(email(w)) then [Recipient(Some(w), email(w))] else [])
        + PayslipRecipients(summaries[1..], known, already, email, valid, seen + {w})
  }

  function ItemsFor(job: nat, rs: seq<Recipient>): seq<Item> {
    seq(|rs|, k requires 0 <= k < |rs| => Item(job, rs[k].worker, rs[k].email, ItemPending, 0, 0))
  }

  /** A new job with one pending item per recipient; nothing is kept when there is none. */
  function Build(s: State, rs: seq<Recipient>, skipped: nat): (State, Answer) {
    if rs == [] then (s, Err(BadRequest))
    else (s.(jobs := s.jobs + [Job(JobQueued, |rs|, 0, 0, skipped, None)], items := s.items + ItemsFor(|s.jobs|, rs)), Ok(()))
  }

  /** The typed addresses, trimmed, blank ones dropped; None if one of them is blocked. */
  function AcceptedExtra(extra: seq<string>, blocked: string -> bool): Option<seq<string>> {
    if extra == [] then Some([])
    else
      var addr := Strip(extra[0]);
      if addr == "" then AcceptedExtra(extra[1..], blocked)
      else if blocked(addr) then None
      else match AcceptedExtra(extra[1..], blocked)
        case None => None
        case Some(rest) => Some([addr] + rest)
  }

  /** What the mail rules of the process decide: which addresses are the same, valid, blocked. */
  datatype Rules = Rules(key: string -> string, valid: string -> bool, blocked: string -> bool)

  function BroadcastRecipients(workers: seq<(nat, string)>, typed: seq<string>, rules: Rules): seq<Recipient> {
    FirstOfEach(Reachable(workers, rules.valid) + Typed(typed), rules.key, {})
  }

  function Broadcast(s: State, title: string, message: string, workers: seq<(nat, string)>, extra: seq<string>,
                     skipWorkers: bool, rules: Rules): (State, Answer) {
    if Strip(title) == "" || Strip(message) == "" then (s, Err(BadRequest))
    else match AcceptedExtra(extra, rules.blocked)
      case None => (s, Err(BadRequest))
      case Some(typed) =>
        if skipWorkers && typed == [] then (s, Err(BadRequest))
        else
          var asked := if skipWorkers then [] else workers;
          var reachable := |Reachable(asked, rules.valid)|;
          Build(s, BroadcastRecipients(asked, typed, rules), if reachable <= |asked| then |asked| - reachable else 0)
  }

  // ---- admin steps ---------------------------------------------------------------------

  predicate Outstanding(i: Item) {
    i.status == ItemPending || i.status == ItemClaimed
  }

  predicate HasItem(items: seq<Item>, job: nat, status: ItemStatus) {
    exists k :: 0 <= k < |items| && items[k].job == job && items[k].status == status
  }

  function Requeued(i: Item): Item {
    i.(status := ItemPending, attempts := 0, claimedAt := 0)
  }

  function RetryItems(items: seq<Item>, job: nat): seq<Item> {
    seq(|items|, k requires 0 <= k < |items| =>
      if items[k].job == job && items[k].status == ItemFailed then Requeued(items[k]) else items[k])
  }

  function Retry(s: State, job: nat): (State, Answer) {
    if job >= |s.jobs| then (s, Err(NotFound))
    else if !HasItem(s.items, job, ItemFailed) then (s, Err(BadRequest))
    else (s.(items := RetryItems(s.items, job),
             jobs := s.jobs[job := s.jobs[job].(status := JobQueued, finishedAt := None)]), Ok(()))
  }

  function CancelItems(items: seq<Item>, job: nat): seq<Item> {
    seq(|items|, k requires 0 <= k < |items| =>
      if items[k].job == job && Outstanding(items[k]) then items[k].(status := ItemSkipped) else items[k])
  }

  function Cancel(s: State, job: nat, now: int): (State, Answer) {
    if job >= |s.jobs| then (s, Err(NotFound))
    else if s.jobs[job].status == JobCompleted then (s, Err(BadRequest))
    else (s.(items := CancelItems(s.items, job),
             jobs := s.jobs[job := s.jobs[job].(status := JobCancelled, finishedAt := Some(now))]), Ok(()))
  }

  /** The item a log entry of a job is about: the first of the job with that address. */
  function ItemOf(items: seq<Item>, job: nat, email: string, from: nat): (k: Option<nat>)
    requires from <= |items|
    ensures k.Some? ==> from <= k.value < |items| && items[k.value].job == job && items[k.value].email == email
    decreases |items| - from
  {
    if from == |items| then None
    else if items[from].job == job && items[from].email == email then Some(from)
    else ItemOf(items, job, email, from + 1)
  }

  predicate Resendable(s: State, log: nat) {
    log < |s.logs| && s.logs[log].Some? && s.logs[log].value.failed && !s.logs[log].value.otp
  }

  /** `delivered` is the provider's answer when a direct message is sent again. */
  function Resend(s: State, log: nat, delivered: bool): (State, Answer) {
    if log >= |s.logs| || s.logs[log].None? then (s, Err(NotFound))
    else if !Resendable(s, log) then (s, Err(BadRequest))
    else
      var l := s.logs[log].value;
      if l.job.None? then
        if !l.content then (s, Err(BadRequest))
        else (s.(logs := s.logs[log := None] + [Some(Log(None, l.email, !delivered, false, !delivered))]), Ok(()))
      else
        var item := ItemOf(s.items, l.job.value, l.email, 0);
        if l.job.value >= |s.jobs| || item.None? then (s, Err(BadRequest))
        else ResendItem(s.(logs := s.logs[log := None]), l.job.value, item.value)
  }

  function ResendItem(s: State, job: nat, item: nat): (State, Answer)
    requires job < |s.jobs| && item < |s.items|
  {
    var i, j := s.items[item], s.jobs[job];
    if i.status == ItemSent then (s, Ok(()))
    else
      var i' := if Outstanding(i) then i else Requeued(i);
      var j' := j.(status := if i'.status == ItemClaimed then JobRunning else JobQueued, finishedAt := None,
                   failed := if Outstanding(i) || j.failed == 0 then j.failed else j.failed - 1);
      (s.(items := s.items[item := i'], jobs := s.jobs[job := j']), Ok(()))
  }

  function DeleteFailed(s: State, log: nat): (State, Answer) {
    if log >= |s.logs| || s.logs[log].None? then (s, Err(NotFound))
    else if !s.logs[log].value.failed then (s, Err(BadRequest))
    else (s.(logs := s.logs[log := None]), Ok(()))
  }

  // ---- dispatcher steps ------------------------------------------------------------------

  /** _claim_items: some pending items of the job, each counted as one more attempt. */
  function ClaimItems(items: seq<Item>, job: nat, chosen: set<nat>, now: int): seq<Item> {
    seq(|items|, k requires 0 <= k < |items| =>
      if k in chosen then items[k].(status := ItemClaimed, attempts := items[k].attempts + 1, claimedAt := now) else items[k])
  }

  predicate Claimable(s: State, job: nat, chosen: set<nat>) {
    forall k :: k in chosen ==> k < |s.items| && s.items[k].job == job && s.items[k].status == ItemPending
  }

  function Claim(s: State, job: nat, chosen: set<nat>, now: int): State {
    if !Claimable(s, job, chosen) then s
    else s.(items := ClaimItems(s.items, job, chosen, now), flight := s.flight + multiset(chosen))
  }

  /** _reap_stuck_claims: claims older than the cutoff, whoever holds them. */
  function ReapItems(items: seq<Item>, cutoff: int): seq<Item> {
    seq(|items|, k requires 0 <= k < |items| =>
      if items[k].status == ItemClaimed && items[k].claimedAt < cutoff then
        if items[k].attempts >= MAX_ATTEMPTS then items[k].(status := ItemFailed) else items[k].(status := ItemPending, claimedAt := 0)
      else items[k])
  }

  function Reap(s: State, cutoff: int): State {
    s.(items := ReapItems(s.items, cutoff))
  }

  function Start(s: State, job: nat): State {
    if job < |s.jobs| && s.jobs[job].status == JobQueued then s.(jobs := s.jobs[job := s.jobs[job].(status := JobRunning)])
    else s
  }

  /** How the dispatcher settles an item it holds: accepted, refused by the provider, its
      payslip data gone, or its job unrenderable. */
  datatype Outcome = Accepted | Refused | DataGone | Broken

  function Settled(i: Item, o: Outcome): Item {
    match o
    case Accepted => i.(status := ItemSent)
    case Refused => if i.attempts < MAX_ATTEMPTS then i.(status := ItemPending, claimedAt := 0) else i.(status := ItemFailed)
    case DataGone => i.(status := ItemSkipped)
    case Broken => i.(status := ItemFailed)
  }

  /** The status is written over whatever the row says by now; attempts are logged. */
  function Settle(s: State, item: nat, o: Outcome): State {
    if item !in s.flight || item >= |s.items| then s
    else
      var i := s.items[item];
      s.(items := s.items[item := Settled(i, o)], flight := s.flight - multiset{item},
         logs := if o.Accepted? || o.Refused? then s.logs + [Some(Log(Some(i.job), i.email, o.Refused?, false, false))] else s.logs)
  }

  /** After an exception the chunk is released, where it is still claimed. */
  function Release(s: State, item: nat): State {
    if item !in s.flight || item >= |s.items| then s
    else
      var i := s.items[item];
      s.(items := if i.status == ItemClaimed then s.items[item := i.(status := ItemPending, claimedAt := 0)] else s.items,
         flight := s.flight - multiset{item})
  }

  /** A dispatcher dies with the item in its hands. */
  function Crash(s: State, item: nat): State {
    s.(flight := s.flight - multiset{item})
  }

  function Tally(items: seq<Item>, job: nat, status: ItemStatus): nat {
    if items == [] then 0
    else Tally(items[..|items| - 1], job, status)
         + if items[|items| - 1].job == job && items[|items| - 1].status == status then 1 else 0
  }

  /** _recount_job: the cached counters, and completion once nothing is outstanding. */
  function Recount(s: State, job: nat, now: int): State {
    if job >= |s.jobs| then s
    else
      var j := s.jobs[job].(sent := Tally(s.items, job, ItemSent), failed := Tally(s.items, job, ItemFailed),
                            skipped := Tally(s.items, job, ItemSkipped));
      var done := Tally(s.items, job, ItemPending) + Tally(s.items, job, ItemClaimed) == 0;
      s.(jobs := s.jobs[job := if done then j.(status := JobCompleted, finishedAt := Some(now)) else j])
  }

  // ---- runs ---------------------------------------------------------------------------------

  datatype Event =
    | OnBuild(recipients: seq<Recipient>, skipped: nat)
    | OnRetry(job: nat)
    | OnCancel(job: nat, now: int)
    | OnResend(log: nat, delivered: bool)
    | OnDeleteFailed(log: nat)
    | OnClaim(job: nat, chosen: set<nat>, now: int)
    | OnReap(cutoff: int)
    | OnStart(job: nat)
    | OnSettle(item: nat, outcome: Outcome)
    | OnRelease(item: nat)
    | OnCrash(item: nat)
    | OnRecount(job: nat, now: int)

  predicate ByAdmin(e: Event) {
    e.OnBuild? || e.OnRetry? || e.OnCancel? || e.OnResend? || e.OnDeleteFailed?
  }

  function Step(s: State, e: Event): State {
    match e
    case OnBuild(rs, skipped) => Build(s, rs, skipped).0
    case OnRetry(job) => Retry(s, job).0
    case OnCancel(job, now) => Cancel(s, job, now).0
    case OnResend(log, delivered) => Resend(s, log, delivered).0
    case OnDeleteFailed(log) => DeleteFailed(s, log).0
    case OnClaim(job, chosen, now) => Claim(s, job, chosen, now)
    case OnReap(cutoff) => Reap(s, cutoff)
    case OnStart(job) => Start(s, job)
    case OnSettle(item, outcome) => Settle(s, item, outcome)
    case OnRelease(item) => Release(s, item)
    case OnCrash(item) => Crash(s, item)
    case OnRecount(job, now) => Recount(s, job, now)
  }

  function Run(s: State, es: seq<Event>): State
    decreases |es|
  {
    if es == [] then s else Run(Step(s, es[0]), es[1..])
  }

  const EMPTY := State([], [], [], multiset{})
}
