/** What a few calls in a row come to: submitting twice, and asking for a change until it is
    granted, refused or withdrawn. */
module RosterEpisodes {
  import opened Wrappers
  import opened Roster
  import opened RosterLaws

  // ---- submitting twice ----------------------------------------------------------------

  /** Creating a shift adds at most one row, for the worker and hours that were sent, and
      answers with a row that has them; a worker's own submission is never approved. */
  lemma CreationIsWhatWasSent(s: State, c: Caller, body: NewShift, approved: bool, known: bool, visible: bool)
    requires CreateShift(s, c, body, approved, known, visible).1.Ok?
    ensures var (s', r) := CreateShift(s, c, body, approved, known, visible);
            && r.value < |s'.shifts| && IsHours(s'.shifts[r.value], body)
            && (s' == s || (r.value == |s.shifts| && s' == s.(shifts := s.shifts + [s'.shifts[r.value]])))
            && (s' != s ==> s'.shifts[r.value].status == (if c.staff then body.status else ShiftPending))
  {
    FirstTwinFound(s.shifts, body.worker, body.start, body.end, 0);
  }

  predicate IsHours(sh: Shift, body: NewShift) {
    sh.worker == body.worker && sh.start == body.start && sh.end == body.end
  }

  /** Sending the same shift twice is a double click, the second answer naming the same row,
      except when staff create one that is cancelled from the start and not there yet. */
  lemma ResubmittingAddsNothing(s: State, c: Caller, body: NewShift, approved: bool, known: bool, visible: bool)
    requires CreateShift(s, c, body, approved, known, visible).1.Ok?
    ensures var (s', r) := CreateShift(s, c, body, approved, known, visible);
            CreateShift(s', c, body, approved, known, visible) == (s', r)
            <==> !(c.staff && body.status == ShiftCancelled && NoTwin(s.shifts, body))
  {
    hide FirstTwin, ClaimError;
    var (s', r) := CreateShift(s, c, body, approved, known, visible);
    FirstTwinFound(s.shifts, body.worker, body.start, body.end, 0);
    FirstTwinFound(s'.shifts, body.worker, body.start, body.end, 0);
    if s' != s {
      var added := s'.shifts[|s.shifts|];
      assert IsTwin(added, body.worker, body.start, body.end) <==> added.status != ShiftCancelled;
      assert forall k :: 0 <= k < |s.shifts| ==> s'.shifts[k] == s.shifts[k];
    }
  }

  /** Staff create a cancelled shift twice and have two rows. */
  lemma CancelledTwinsAdd(staff: Caller, w: nat, start: int, end: int)
    requires staff.staff
    ensures var e := OnCreateShift(staff, NewShift(w, None, start, end, ShiftCancelled, Normal), true, true, true);
            |Step(Step(EMPTY, e).0, e).0.shifts| == 2
  {
    var body := NewShift(w, None, start, end, ShiftCancelled, Normal);
    var s1 := Step(EMPTY, OnCreateShift(staff, body, true, true, true)).0;
    FirstTwinFound(EMPTY.shifts, w, start, end, 0);
    FirstTwinFound(s1.shifts, w, start, end, 0);
  }

  /** A worker submits a shift of a day and a second, and it is taken. */
  lemma OverlongShiftIsTaken(worker: Caller, start: int)
    requires !worker.staff
    ensures var body := NewShift(worker.worker, None, start, start + DAY + 1, ShiftPending, Normal);
            var s := Step(EMPTY, OnCreateShift(worker, body, true, true, true)).0;
            |s.shifts| == 1 && s.shifts[0].end - s.shifts[0].start > DAY && !ProperLengths(s)
  {
    FirstTwinFound(EMPTY.shifts, worker.worker, start, start + DAY + 1, 0);
    var body := NewShift(worker.worker, None, start, start + DAY + 1, ShiftPending, Normal);
    var s := Step(EMPTY, OnCreateShift(worker, body, true, true, true)).0;
    assert !ProperWindow(s.shifts[0].start, s.shifts[0].end);
  }

  // ---- asking until an answer ------------------------------------------------------------

  /** What a worker asked of a shift. */
  function Asked(ask: Ask, sh: Shift): Change {
    if ask.AskDelete? then Delete else Edit(ask.start.GetOr(sh.start), ask.end.GetOr(sh.end))
  }

  predicate HasPending(s: State, shift: nat) {
    exists i :: 0 <= i < |s.requests| && s.requests[i].shift == shift && s.requests[i].status == RequestPending
  }

  /** Asking again amends the open request and asking anew opens one; nothing else moves. */
  lemma AskingKeepsOneRequest(s: State, c: Caller, id: nat, ask: Ask, reason: Option<string>, now: int)
    requires SendChangeRequest(s, c, id, ask, reason, now).1.Ok?
    ensures var (s', r) := SendChangeRequest(s, c, id, ask, reason, now);
            && id < |s.shifts| && r.value < |s'.requests| && s'.shifts == s.shifts && s'.reports == s.reports
            && s'.requests[r.value].shift == id && s'.requests[r.value].status == RequestPending
            && s'.requests[r.value].change == Asked(ask, s.shifts[id])
            && |s'.requests| == |s.requests| + (if HasPending(s, id) then 0 else 1)
            && forall i :: 0 <= i < |s.requests| && i != r.value ==> s'.requests[i] == s.requests[i]
  {
    FirstPendingFound(s.requests, id, 0);
  }

  function Granted(sh: Shift, change: Change, admin: nat, now: int): Shift {
    match change
    case Edit(start, end) => sh.(start := start, end := end, approvedBy := Some(admin), approvedAt := Some(now))
    case Delete => sh.(status := ShiftCancelled)
  }

  /** Whatever was asked before, approving grants exactly the latest ask, to that shift alone,
      and leaves no request of the shift open; a second answer is refused. */
  lemma ApprovalGrantsTheLatestAsk(s: State, c: Caller, id: nat, ask: Ask, reason: Option<string>, now: int,
                                   staff: Caller, note: Option<string>, later: int, known: bool)
    requires OnePendingRequest(s.requests) && SendChangeRequest(s, c, id, ask, reason, now).1.Ok?
    requires var (s1, r) := SendChangeRequest(s, c, id, ask, reason, now);
             ReviewChangeRequest(s1, staff, r.value, true, note, later, known).1.Ok?
    ensures var (s1, r) := SendChangeRequest(s, c, id, ask, reason, now);
            var s2 := ReviewChangeRequest(s1, staff, r.value, true, note, later, known).0;
            && id < |s.shifts|
            && s2.shifts == s.shifts[id := Granted(s.shifts[id], Asked(ask, s.shifts[id]), staff.admin, later)]
            && !HasPending(s2, id)
            && (forall x: Caller, approve, n, t, k :: x.staff ==>
                  ReviewChangeRequest(s2, x, r.value, approve, n, t, k) == (s2, Err(Conflict)))
  {
    AskingKeepsOneRequest(s, c, id, ask, reason, now);
    StepKeepsOnePendingRequest(s, OnSendRequest(c, id, ask, reason, now));
    hide SendChangeRequest;
  }

  /** A request withdrawn or rejected leaves every shift as it was before it was sent, and the
      worker free to ask again. */
  lemma RefusalAndWithdrawalUndo(s: State, c: Caller, id: nat, ask: Ask, reason: Option<string>, now: int,
                                 staff: Caller, note: Option<string>, later: int, known: bool)
    requires OnePendingRequest(s.requests) && SendChangeRequest(s, c, id, ask, reason, now).1.Ok?
    ensures var (s1, r) := SendChangeRequest(s, c, id, ask, reason, now);
            var (s2, answer) := ReviewChangeRequest(s1, staff, r.value, false, note, later, known);
            var (s3, answer') := WithdrawChangeRequest(s1, c, r.value);
            && s2.shifts == s.shifts && (answer.Ok? ==> !HasPending(s2, id))
            && s3.shifts == s.shifts && (answer'.Ok? ==> !HasPending(s3, id))
  {
    AskingKeepsOneRequest(s, c, id, ask, reason, now);
    StepKeepsOnePendingRequest(s, OnSendRequest(c, id, ask, reason, now));
    hide SendChangeRequest;
  }
}
