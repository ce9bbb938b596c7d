/** What every step, and so every run, of the schedule keeps. */
module RosterLaws {
  import opened Wrappers
  import opened Roster

  // ---- approved shifts belong to the staff -------------------------------------------

  /** Every approved shift of `s` is still there unchanged, and no other shift is approved. */
  ghost predicate SameApproved(s: State, s': State) {
    && |s.shifts| <= |s'.shifts|
    && (forall i :: 0 <= i < |s.shifts| && s.shifts[i].status == ShiftApproved ==> s'.shifts[i] == s.shifts[i])
    && (forall i :: 0 <= i < |s'.shifts| && s'.shifts[i].status == ShiftApproved
          ==> i < |s.shifts| && s.shifts[i].status == ShiftApproved)
  }

  lemma WorkerStepKeepsApproved(s: State, e: Event)
    requires !e.c.staff
    ensures SameApproved(s, Step(s, e).0)
  {
  }

  /** Whatever workers do on their own, in any order, the approved shifts stay as they are:
      hours, machine, status and approval. */
  lemma {:induction false} WorkersCannotTouchApproved(s: State, es: seq<Event>)
    requires forall k :: 0 <= k < |es| ==> !es[k].c.staff
    ensures SameApproved(s, Run(s, es))
    decreases |es|
  {
    if es != [] {
      WorkerStepKeepsApproved(s, es[0]);
      WorkersCannotTouchApproved(Step(s, es[0]).0, es[1..]);
    }
  }

  // ---- one open request and one open report per shift --------------------------------------

  ghost predicate OnePendingRequest(requests: seq<ChangeRequest>) {
    forall i, j :: 0 <= i < j < |requests| && requests[i].status == RequestPending && requests[j].status == RequestPending
      ==> requests[i].shift != requests[j].shift
  }

  ghost predicate OneOpenReport(reports: seq<Report>) {
    forall i, j :: 0 <= i < j < |reports| && Counts(reports[i]) && Counts(reports[j]) && reports[i].shift.Some?
      ==> reports[i].shift != reports[j].shift
  }

  ghost predicate OnePending(s: State) {
    OnePendingRequest(s.requests) && OneOpenReport(s.reports)
  }

  lemma {:induction false} FirstPendingFound(requests: seq<ChangeRequest>, shift: nat, from: nat)
    requires from <= |requests|
    ensures match FirstPendingRequest(requests, shift, from)
            case Some(i) => from <= i < |requests| && requests[i].shift == shift && requests[i].status == RequestPending
            case None => forall i :: from <= i < |requests| && requests[i].shift == shift ==> requests[i].status != RequestPending
    decreases |requests| - from
  {
    if from < |requests| && !(requests[from].shift == shift && requests[from].status == RequestPending) {
      FirstPendingFound(requests, shift, from + 1);
    }
  }

  lemma StepKeepsOnePendingRequest(s: State, e: Event)
    requires OnePendingRequest(s.requests)
    ensures OnePendingRequest(Step(s, e).0.requests)
  {
    if e.OnSendRequest? {
      FirstPendingFound(s.requests, e.id, 0);
    }
  }

  lemma StepKeepsOneOpenReport(s: State, e: Event)
    requires OneOpenReport(s.reports)
    ensures OneOpenReport(Step(s, e).0.reports)
  {
  }

  lemma {:induction false} RunKeepsOnePending(s: State, es: seq<Event>)
    requires OnePending(s)
    ensures OnePending(Run(s, es))
    decreases |es|
  {
    if es != [] {
      StepKeepsOnePendingRequest(s, es[0]);
      StepKeepsOneOpenReport(s, es[0]);
      RunKeepsOnePending(Step(s, es[0]).0, es[1..]);
    }
  }

  ghost predicate NoDuplicates(xs: seq<nat>) {
    forall i, j :: 0 <= i < j < |xs| ==> xs[i] != xs[j]
  }

  ghost predicate FlagsRequest(s: State, c: Caller, i: nat, shift: nat)
    requires i < |s.requests|
  {
    var r := s.requests[i];
    r.shift == shift && (c.staff || r.worker == c.worker) && r.status == RequestPending
    && shift < |s.shifts| && s.shifts[shift].status != ShiftCancelled
  }

  lemma {:induction false} FlaggedByRequestsExact(s: State, c: Caller, upto: nat)
    requires OnePending(s) && upto <= |s.requests|
    ensures NoDuplicates(FlaggedByRequests(s, c, upto))
    ensures forall x :: x in FlaggedByRequests(s, c, upto) <==> exists i :: 0 <= i < upto && FlagsRequest(s, c, i, x)
    decreases upto
  {
    if upto > 0 {
      FlaggedByRequestsExact(s, c, upto - 1);
      var before, x := FlaggedByRequests(s, c, upto - 1), s.requests[upto - 1].shift;
      assert FlagsRequest(s, c, upto - 1, x) ==> x !in before;
    }
  }

  ghost predicate FlagsReport(s: State, c: Caller, i: nat, shift: nat)
    requires i < |s.reports|
  {
    var r := s.reports[i];
    r.shift == Some(shift) && (c.staff || r.worker == c.worker) && Counts(r)
  }

  lemma {:induction false} FlaggedByReportsExact(s: State, c: Caller, upto: nat)
    requires OnePending(s) && upto <= |s.reports|
    ensures NoDuplicates(FlaggedByReports(s, c, upto))
    ensures forall x :: x in FlaggedByReports(s, c, upto) <==> exists i :: 0 <= i < upto && FlagsReport(s, c, i, x)
    decreases upto
  {
    if upto > 0 {
      FlaggedByReportsExact(s, c, upto - 1);
      var before, x := FlaggedByReports(s, c, upto - 1), s.reports[upto - 1].shift;
      assert x.Some? && FlagsReport(s, c, upto - 1, x.value) ==> x.value !in before;
    }
  }

  /** In every state a run can reach, both badge lists are free of duplicates and name exactly
      the shifts of the caller's pending requests and open reports. */
  lemma BadgesAreExact(es: seq<Event>, c: Caller)
    ensures var s := Run(EMPTY, es);
            && NoDuplicates(FlaggedByRequests(s, c, |s.requests|))
            && (forall x :: x in FlaggedByRequests(s, c, |s.requests|)
                  <==> exists i :: 0 <= i < |s.requests| && FlagsRequest(s, c, i, x))
            && NoDuplicates(FlaggedByReports(s, c, |s.reports|))
            && (forall x :: x in FlaggedByReports(s, c, |s.reports|)
                  <==> exists i :: 0 <= i < |s.reports| && FlagsReport(s, c, i, x))
  {
    RunKeepsOnePending(EMPTY, es);
    var s := Run(EMPTY, es);
    FlaggedByRequestsExact(s, c, |s.requests|);
    FlaggedByReportsExact(s, c, |s.reports|);
  }

  // ---- decided records are final -----------------------------------------------------------

  ghost predicate DecidedKept(s: State, s': State) {
    && |s.requests| <= |s'.requests| && |s.reports| <= |s'.reports|
    && (forall i :: 0 <= i < |s.requests| && s.requests[i].status != RequestPending ==> s'.requests[i] == s.requests[i])
    && (forall i :: 0 <= i < |s.reports| && s.reports[i].status != ReportPending ==> s'.reports[i] == s.reports[i])
  }

  predicate OnReports(e: Event) {
    e.OnFileAbsence? || e.OnAmendAbsence? || e.OnAddAttachment? || e.OnRemoveAttachment? || e.OnReviewAbsence?
  }

  lemma OthersLeaveReports(s: State, e: Event)
    requires !OnReports(e)
    ensures Step(s, e).0.reports == s.reports
  {
    hide ClaimError, FirstTwin, FirstPendingRequest;
  }

  predicate OnRequests(e: Event) {
    e.OnSendRequest? || e.OnWithdrawRequest? || e.OnReviewRequest?
  }

  lemma OthersLeaveRequests(s: State, e: Event)
    requires !OnRequests(e)
    ensures Step(s, e).0.requests == s.requests
  {
    hide ClaimError, FirstTwin, HasOpenReport, Without;
  }

  lemma StepKeepsDecided(s: State, e: Event)
    ensures DecidedKept(s, Step(s, e).0)
  {
    hide ClaimError, FirstTwin, HasOpenReport, Without;
    if !OnReports(e) {
      OthersLeaveReports(s, e);
      if !OnRequests(e) {
        OthersLeaveRequests(s, e);
        hide Step;
      }
    } else {
      OthersLeaveRequests(s, e);
    }
  }

  /** Once a request or a report has left pending, no run changes anything in it. */
  lemma {:induction false} DecisionsAreFinal(s: State, es: seq<Event>)
    ensures DecidedKept(s, Run(s, es))
    decreases |es|
  {
    if es != [] {
      StepKeepsDecided(s, es[0]);
      DecisionsAreFinal(Step(s, es[0]).0, es[1..]);
    }
  }

  ghost predicate Distinct(paths: seq<string>) {
    forall i, j :: 0 <= i < j < |paths| ==> paths[i] != paths[j]
  }

  ghost predicate ReportsWellFormed(s: State) {
    forall i :: 0 <= i < |s.reports| ==>
      var r := s.reports[i];
      r.start < r.end && |r.attachments| <= MAX_ATTACHMENTS && Distinct(r.attachments) && |r.reason| >= MIN_REASON_CHARS
  }

  lemma {:induction false} WithoutExact(paths: seq<string>, path: string)
    requires Distinct(paths)
    ensures Distinct(Without(paths, path)) && |Without(paths, path)| <= |paths|
    ensures forall x :: x in Without(paths, path) <==> x in paths && x != path
  {
    if paths != [] {
      WithoutExact(paths[1..], path);
      assert paths == [paths[0]] + paths[1..];
      assert paths[0] !in paths[1..];
    }
  }

  lemma StepKeepsReportsWellFormed(s: State, e: Event)
    requires ReportsWellFormed(s)
    ensures ReportsWellFormed(Step(s, e).0)
  {
    if !OnReports(e) {
      hide Step;
      OthersLeaveReports(s, e);
    } else {
      hide CreateShift, UpdateShift, DeleteShift, SendChangeRequest, WithdrawChangeRequest, ReviewChangeRequest, HasOpenReport;
      if e.OnRemoveAttachment? && e.id < |s.reports| {
        WithoutExact(s.reports[e.id].attachments, e.path_);
      }
    }
  }

  lemma {:induction false} RunKeepsReportsWellFormed(s: State, es: seq<Event>)
    requires ReportsWellFormed(s)
    ensures ReportsWellFormed(Run(s, es))
    decreases |es|
  {
    if es != [] {
      StepKeepsReportsWellFormed(s, es[0]);
      RunKeepsReportsWellFormed(Step(s, es[0]).0, es[1..]);
    }
  }

  // ---- shift length -------------------------------------------------------------------------

  /** Every shift, and every edit asked for, runs forward and for at most a day. */
  ghost predicate ProperLengths(s: State) {
    && (forall i :: 0 <= i < |s.shifts| ==> ProperWindow(s.shifts[i].start, s.shifts[i].end))
    && (forall i :: 0 <= i < |s.requests| && s.requests[i].change.Edit?
          ==> ProperWindow(s.requests[i].change.start, s.requests[i].change.end))
  }

  lemma {:induction false} FirstTwinFound(shifts: seq<Shift>, worker: nat, start: int, end: int, from: nat)
    requires from <= |shifts|
    ensures match FirstTwin(shifts, worker, start, end, from)
            case Some(i) => from <= i < |shifts| && IsTwin(shifts[i], worker, start, end)
                            && forall k :: from <= k < i ==> !IsTwin(shifts[k], worker, start, end)
            case None => forall k :: from <= k < |shifts| ==> !IsTwin(shifts[k], worker, start, end)
    decreases |shifts| - from
  {
    if from < |shifts| && !IsTwin(shifts[from], worker, start, end) {
      FirstTwinFound(shifts, worker, start, end, from + 1);
    }
  }

  predicate NoTwin(shifts: seq<Shift>, body: NewShift) {
    forall k :: 0 <= k < |shifts| ==> !IsTwin(shifts[k], body.worker, body.start, body.end)
  }

  /** create_shift checks no times: the one way a bad window gets in is a creation that may be
      made, is no double click, and passes the check of claim shifts if it is one. */
  ghost predicate InsertsImproper(s: State, e: Event) {
    && e.OnCreateShift? && !ProperWindow(e.body.start, e.body.end)
    && (e.c.staff || (e.body.worker == e.c.worker && e.approved))
    && NoTwin(s.shifts, e.body)
    && (e.body.kind == Claim ==>
          ClaimError(s.shifts, e.body.machine, e.body.start, e.body.end, e.known, e.c.staff || e.visible, None).None?)
  }

  lemma CreationInserts(s: State, e: Event)
    requires e.OnCreateShift?
    ensures var s' := Step(s, e).0;
            InsertsImproper(s, e) <==> !ProperWindow(e.body.start, e.body.end) && |s'.shifts| > |s.shifts|
    ensures var s' := Step(s, e).0;
            |s'.shifts| > |s.shifts| ==> |s'.shifts| == |s.shifts| + 1 && s'.shifts[..|s.shifts|] == s.shifts
                                         && s'.shifts[|s.shifts|].start == e.body.start && s'.shifts[|s.shifts|].end == e.body.end
  {
    hide ClaimError;
    FirstTwinFound(s.shifts, e.body.worker, e.body.start, e.body.end, 0);
  }

  lemma StepKeepsLengths(s: State, e: Event)
    requires ProperLengths(s)
    ensures ProperLengths(Step(s, e).0) <==> !InsertsImproper(s, e)
  {
    hide ClaimError;
    if e.OnCreateShift? {
      CreationInserts(s, e);
      hide InsertsImproper;
      CreationAndLengths(s, e);
    } else if e.OnSendRequest? {
      FirstPendingFound(s.requests, e.id, 0);
    }
  }

  lemma CreationAndLengths(s: State, e: Event)
    requires ProperLengths(s) && e.OnCreateShift?
    ensures ProperLengths(Step(s, e).0) <==> ProperWindow(e.body.start, e.body.end) || |Step(s, e).0.shifts| <= |s.shifts|
  {
    hide ClaimError, FirstTwin;
    var s' := Step(s, e).0;
    if |s'.shifts| > |s.shifts| {
      assert s'.shifts == s.shifts + [s'.shifts[|s.shifts|]];
    }
  }

  /** `P` of the state before each step of the run, and of the last one. */
  ghost predicate Throughout(s: State, es: seq<Event>, P: State -> bool)
    decreases |es|
  {
    P(s) && (es != [] ==> Throughout(Step(s, es[0]).0, es[1..], P))
  }

  /** Some step of the run is one that `bad` describes. */
  ghost predicate Sometime(s: State, es: seq<Event>, bad: (State, Event) -> bool)
    decreases |es|
  {
    es != [] && (bad(s, es[0]) || Sometime(Step(s, es[0]).0, es[1..], bad))
  }

  /** Lengths stay proper all through a run exactly when no creation inserts an improper one;
      updates, requests, amendments and approvals never spoil them. */
  lemma {:induction false} LengthsProperThroughout(s: State, es: seq<Event>)
    requires ProperLengths(s)
    ensures Throughout(s, es, ProperLengths) <==> !Sometime(s, es, InsertsImproper)
    decreases |es|
  {
    if es != [] {
      StepKeepsLengths(s, es[0]);
      if ProperLengths(Step(s, es[0]).0) {
        LengthsProperThroughout(Step(s, es[0]).0, es[1..]);
      }
    }
  }

  // ---- claim shifts on one machine ---------------------------------------------------------------

  ghost predicate ClaimHolds(sh: Shift) {
    sh.kind == Claim && sh.machine.Some? && Holding(sh)
  }

  /** "Two claim shifts can never overlap on the same machine." */
  ghost predicate ClaimsDisjoint(s: State) {
    forall i, j :: 0 <= i < j < |s.shifts| && ClaimHolds(s.shifts[i]) && ClaimHolds(s.shifts[j])
                   && s.shifts[i].machine == s.shifts[j].machine
                   ==> !Overlaps(s.shifts[i], s.shifts[j].start, s.shifts[j].end)
  }

  /** A staff PATCH that puts a rejected or cancelled claim shift back to pending, leaving its
      times and machine alone, is not validated; here its slot has been taken meanwhile. */
  ghost predicate RevivesOntoTaken(s: State, e: Event) {
    && e.OnUpdateShift? && e.c.staff && e.id < |s.shifts|
    && var sh := s.shifts[e.id];
       && sh.kind == Claim && sh.machine.Some? && !Holding(sh)
       && e.patch.status == Set(ShiftPending) && !e.patch.MovesTimes() && e.patch.machine == Unset
       && Clash(s.shifts, sh.machine.value, sh.start, sh.end, Some(e.id))
  }

  lemma RevivalBreaksPromise(s: State, e: Event)
    requires RevivesOntoTaken(s, e)
    ensures !ClaimsDisjoint(Step(s, e).0)
  {
    var (s', sh) := (Step(s, e).0, s.shifts[e.id]);
    var i :| 0 <= i < |s.shifts| && Some(i) != Some(e.id) && s.shifts[i].kind == Claim
             && s.shifts[i].machine == sh.machine && Holding(s.shifts[i]) && Overlaps(s.shifts[i], sh.start, sh.end);
    assert s'.shifts[i] == s.shifts[i];
    assert ClaimHolds(s'.shifts[i]) && ClaimHolds(s'.shifts[e.id]);
    assert Overlaps(s'.shifts[e.id], s'.shifts[i].start, s'.shifts[i].end);
  }

  predicate OnShifts(e: Event) {
    e.OnCreateShift? || e.OnUpdateShift? || e.OnDeleteShift? || e.OnReviewRequest? || e.OnReviewAbsence?
  }

  lemma OthersLeaveShifts(s: State, e: Event)
    requires !OnShifts(e)
    ensures Step(s, e).0.shifts == s.shifts
  {
    hide HasOpenReport, FirstPendingRequest, Without;
  }

  lemma StepKeepsClaimsDisjoint(s: State, e: Event)
    requires ClaimsDisjoint(s)
    ensures ClaimsDisjoint(Step(s, e).0) <==> !RevivesOntoTaken(s, e)
  {
    if RevivesOntoTaken(s, e) {
      RevivalBreaksPromise(s, e);
    } else if !OnShifts(e) {
      hide Step;
      OthersLeaveShifts(s, e);
    } else {
      hide SendChangeRequest, WithdrawChangeRequest, FileAbsence, AmendAbsence, AddAttachment, RemoveAttachment, FirstTwin;
    }
  }

  /** The promise holds all through a run exactly when no step revives a claim shift onto a
      slot that is taken. */
  lemma {:induction false} ClaimsDisjointThroughout(s: State, es: seq<Event>)
    requires ClaimsDisjoint(s)
    ensures Throughout(s, es, ClaimsDisjoint) <==> !Sometime(s, es, RevivesOntoTaken)
    decreases |es|
  {
    if es != [] {
      StepKeepsClaimsDisjoint(s, es[0]);
      if ClaimsDisjoint(Step(s, es[0]).0) {
        ClaimsDisjointThroughout(Step(s, es[0]).0, es[1..]);
      }
    }
  }

  /** While the promise holds, at most one approved claim shift holds a machine at any instant. */
  lemma OneHolderAtATime(s: State, machine: nat, now: int, i: nat, j: nat)
    requires ClaimsDisjoint(s) && i < |s.shifts| && j < |s.shifts|
    requires HoldsNow(s.shifts[i], machine, now) && HoldsNow(s.shifts[j], machine, now)
    ensures i == j
  {
    if i < j {
      assert ClaimHolds(s.shifts[i]) && ClaimHolds(s.shifts[j]);
    } else if j < i {
      assert ClaimHolds(s.shifts[j]) && ClaimHolds(s.shifts[i]);
    }
  }

  /** active_claim_shift's test. */
  ghost predicate HoldsNow(sh: Shift, machine: nat, now: int) {
    sh.kind == Claim && sh.machine == Some(machine) && sh.status == ShiftApproved && sh.start <= now < sh.end
  }

  /** The four calls that break the promise: staff book a machine, cancel the booking, book it
      again for someone else, and put the first booking back to pending. */
  function DoubleBooking(staff: Caller, w: nat, w': nat, machine: nat, start: int, end: int): seq<Event> {
    [OnCreateShift(staff, NewShift(w, Some(machine), start, end, ShiftPending, Claim), true, true, true),
     OnDeleteShift(staff, 0),
     OnCreateShift(staff, NewShift(w', Some(machine), start, end, ShiftPending, Claim), true, true, true),
     OnUpdateShift(staff, 0, Patch(Unset, Unset, Unset, Set(ShiftPending), Unset, Unset), start, true, true)]
  }

  lemma PromiseCanBreak(staff: Caller, w: nat, w': nat, machine: nat, start: int, end: int)
    requires staff.staff && w != w' && start < end
    ensures !ClaimsDisjoint(Run(EMPTY, DoubleBooking(staff, w, w', machine, start, end)))
  {
    var es := DoubleBooking(staff, w, w', machine, start, end);
    var first := Shift(w, Some(machine), start, end, ShiftPending, Claim, None, None);
    var second := first.(worker := w');
    var s1, s2 := State([first], [], []), State([first.(status := ShiftCancelled)], [], []);
    var s3, s4 := s2.(shifts := s2.shifts + [second]), State([first, second], [], []);
    assert FirstTwin([], w, start, end, 0) == None;
    assert Step(EMPTY, es[0]).0 == s1 && Step(s1, es[1]).0 == s2;
    assert FirstTwin(s2.shifts, w', start, end, 1) == None;
    assert Step(s2, es[2]).0 == s3 && Step(s3, es[3]).0 == s4;
    assert Run(EMPTY, es) == Run(s1, es[1..]) == Run(s2, es[1..][1..]) == Run(s3, es[1..][1..][1..]) == Run(s4, es[1..][1..][1..][1..]);
    assert es[1..][1..][1..][1..] == [];
    assert ClaimHolds(s4.shifts[0]) && ClaimHolds(s4.shifts[1]) && Overlaps(s4.shifts[0], start, end);
  }
}
