/** What each call on the schedule does, column by column: when it is accepted, what it writes,
    and that nothing else changes. */
module RosterEffects {
  import opened Wrappers
  import opened Roster
  import opened RosterLaws

  /** Only shift `i` may have changed; no row was added, and the other tables are as before. */
  ghost predicate OnlyShift(s: State, s': State, i: nat) {
    && |s'.shifts| == |s.shifts| && s'.requests == s.requests && s'.reports == s.reports
    && forall k :: 0 <= k < |s.shifts| && k != i ==> s'.shifts[k] == s.shifts[k]
  }

  ghost predicate OnlyRequest(s: State, s': State, i: nat) {
    && |s'.requests| == |s.requests| && s'.shifts == s.shifts && s'.reports == s.reports
    && forall k :: 0 <= k < |s.requests| && k != i ==> s'.requests[k] == s.requests[k]
  }

  ghost predicate OnlyReport(s: State, s': State, i: nat) {
    && |s'.reports| == |s.reports| && s'.shifts == s.shifts && s'.requests == s.requests
    && forall k :: 0 <= k < |s.reports| && k != i ==> s'.reports[k] == s.reports[k]
  }

  // ---- claim shifts ------------------------------------------------------------------

  predicate Within(t: int, start: int, end: int) {
    start <= t < end
  }

  /** Two windows overlap exactly when they share an instant. */
  lemma OverlapIsASharedInstant(sh: Shift, start: int, end: int)
    requires sh.start < sh.end && start < end
    ensures Overlaps(sh, start, end) <==> exists t :: Within(t, sh.start, sh.end) && Within(t, start, end)
  {
    if Overlaps(sh, start, end) {
      var t := Max(sh.start, start);
      assert Within(t, sh.start, sh.end) && Within(t, start, end);
    }
  }

  /** A machine may be booked for a window exactly when it is named, known and visible, and no
      other pending or approved claim shift on it begins before the end and ends after the start. */
  lemma ClaimIsAllowedIff(shifts: seq<Shift>, machine: Option<nat>, start: int, end: int, known: bool, visible: bool, exclude: Option<nat>)
    ensures ClaimError(shifts, machine, start, end, known, visible, exclude) == None
            <==> && machine.Some? && known && visible
                 && forall i :: 0 <= i < |shifts| && Some(i) != exclude && shifts[i].kind == Claim && shifts[i].machine == machine
                                && (shifts[i].status == ShiftPending || shifts[i].status == ShiftApproved)
                                ==> shifts[i].end <= start || end <= shifts[i].start
    ensures ClaimError(shifts, machine, start, end, known, visible, exclude) == Some(Conflict) ==> machine.Some? && known && visible
  {
  }

  // ---- shifts ---------------------------------------------------------------------------

  /** A creation is accepted exactly from staff or from the approved worker itself, as a double
      click or with a claim that is allowed; it then stores the shift that was sent. */
  lemma CreateIsWhatWasSent(s: State, c: Caller, body: NewShift, approved: bool, known: bool, visible: bool)
    ensures var (s', r) := CreateShift(s, c, body, approved, known, visible);
            && (r.Ok? <==>
                  && (c.staff || (body.worker == c.worker && approved))
                  && (!NoTwin(s.shifts, body) || body.kind == Normal
                      || ClaimError(s.shifts, body.machine, body.start, body.end, known, c.staff || visible, None) == None))
            && (r.Err? || !NoTwin(s.shifts, body) ==> s' == s)
            && (r.Ok? && NoTwin(s.shifts, body) ==>
                  && r.value == |s.shifts| && s'.requests == s.requests && s'.reports == s.reports
                  && s'.shifts == s.shifts + [Shift(body.worker, body.machine, body.start, body.end,
                                                    if c.staff then body.status else ShiftPending, body.kind, None, None)])
  {
    hide ClaimError;
    FirstTwinFound(s.shifts, body.worker, body.start, body.end, 0);
  }

  /** A column of a row after a PATCH, from its field alone. */
  predicate Column<T(==)>(f: Field<T>, before: T, after: T) {
    (f.Set? ==> after == f.value) && (f.Unset? ==> after == before) && !f.Null?
  }

  /** The same where the column may be null. */
  predicate NullableColumn<T(==)>(f: Field<T>, before: Option<T>, after: Option<T>) {
    (f.Set? ==> after == Some(f.value)) && (f.Null? ==> after == None) && (f.Unset? ==> after == before)
  }

  /** An accepted update writes every column that was sent, clears what was sent as null, and
      keeps what was left out, the worker, the kind and everything else. A worker's update only
      moves a pending shift of its own that has not begun, to a time that has not come. */
  lemma UpdateIsWhatWasSent(s: State, c: Caller, id: nat, p: Patch, now: int, known: bool, assignable: bool)
    ensures var (s', r) := UpdateShift(s, c, id, p, now, known, assignable);
            && (r.Err? ==> s' == s)
            && (r.Ok? ==>
                  && id < |s.shifts| && OnlyShift(s, s', id) && r.value == id
                  && var (old_, new_) := (s.shifts[id], s'.shifts[id]);
                     && new_.worker == old_.worker && new_.kind == old_.kind
                     && Column(p.start, old_.start, new_.start) && Column(p.end, old_.end, new_.end)
                     && Column(p.status, old_.status, new_.status) && NullableColumn(p.machine, old_.machine, new_.machine)
                     && NullableColumn(p.approvedBy, old_.approvedBy, new_.approvedBy)
                     && NullableColumn(p.approvedAt, old_.approvedAt, new_.approvedAt)
                     && (c.staff || (old_.worker == c.worker
                           && p.machine.Unset? && p.status.Unset? && p.approvedBy.Unset? && p.approvedAt.Unset?
                           && ((p.start.Unset? && p.end.Unset?) || (old_.status == ShiftPending && now < old_.start && now < new_.start))))
                     && ((p.start.Unset? && p.end.Unset?) || new_.start < new_.end <= new_.start + 86400))
  {
    hide ClaimError;
  }

  /** An update by staff that says nothing of times is accepted exactly for a known shift whose
      status is not sent as null, with an assignable machine if it approves a normal shift, and
      an allowed claim if a holding claim shift is approved or given a machine. */
  lemma StaffUpdateIsAcceptedIff(s: State, c: Caller, id: nat, p: Patch, now: int, known: bool, assignable: bool)
    requires c.staff && p.start.Unset? && p.end.Unset?
    ensures UpdateShift(s, c, id, p, now, known, assignable).1.Ok?
            <==> && id < |s.shifts| && !p.status.Null?
                 && var old_ := s.shifts[id];
                    var status := if p.status.Set? then p.status.value else old_.status;
                    var machine := if p.machine.Set? then Some(p.machine.value) else if p.machine.Null? then None else old_.machine;
                    var approving := status == ShiftApproved && old_.status != ShiftApproved;
                    if old_.kind == Normal then !approving || machine.None? || assignable
                    else if (status == ShiftPending || status == ShiftApproved) && (!p.machine.Unset? || approving)
                    then ClaimError(s.shifts, machine, old_.start, old_.end, known, true, Some(id)) == None
                    else true
  {
    hide ClaimError;
  }

  /** An update that moves a shift is accepted exactly for a proper window, from staff or for
      one's own pending shift in the future, and with an allowed claim if it holds a machine. */
  lemma MoveIsAcceptedIff(s: State, c: Caller, id: nat, start: Field<int>, end: Field<int>, now: int, known: bool, assignable: bool)
    requires start.Set? || end.Set?
    ensures UpdateShift(s, c, id, Patch(start, end, Unset, Unset, Unset, Unset), now, known, assignable).1.Ok?
            <==> && id < |s.shifts| && (c.staff || s.shifts[id].worker == c.worker) && !start.Null? && !end.Null?
                 && var old_ := s.shifts[id];
                    var (from, to) := (if start.Set? then start.value else old_.start, if end.Set? then end.value else old_.end);
                    && from < to && to - from <= 86400
                    && (c.staff || (old_.status == ShiftPending && now < old_.start && now < from))
                    && (old_.kind == Claim && (old_.status == ShiftPending || old_.status == ShiftApproved) ==>
                          ClaimError(s.shifts, old_.machine, from, to, known, true, Some(id)) == None)
  {
    hide ClaimError;
  }

  /** A deletion cancels: accepted for staff, and for workers on their own pending or already
      cancelled shifts. */
  lemma DeleteIsExact(s: State, c: Caller, id: nat)
    ensures var (s', r) := DeleteShift(s, c, id);
            && (r.Ok? <==> id < |s.shifts| && (c.staff || (s.shifts[id].worker == c.worker
                                                && (s.shifts[id].status == ShiftPending || s.shifts[id].status == ShiftCancelled))))
            && (r.Err? ==> s' == s)
            && (r.Ok? ==> OnlyShift(s, s', id) && s'.shifts[id] == s.shifts[id].(status := ShiftCancelled))
  {
  }

  // ---- change requests ----------------------------------------------------------------------

  /** A request is taken exactly from the worker of an approved shift that has not begun, and
      an edit only to a proper, different window in the future. */
  lemma AskIsAcceptedIff(s: State, c: Caller, id: nat, ask: Ask, reason: Option<string>, now: int)
    ensures var (s', r) := SendChangeRequest(s, c, id, ask, reason, now);
            && (r.Err? ==> s' == s)
            && (r.Ok? <==>
                  && !c.staff && id < |s.shifts| && s.shifts[id].worker == c.worker
                  && s.shifts[id].status == ShiftApproved && now < s.shifts[id].start
                  && (ask.AskEdit? ==>
                        var (from, to) := (if ask.start.Some? then ask.start.value else s.shifts[id].start,
                                           if ask.end.Some? then ask.end.value else s.shifts[id].end);
                        && from < to && to - from <= 86400 && now < from
                        && !(from == s.shifts[id].start && to == s.shifts[id].end)))
  {
  }

  /** What an accepted request stores: the ask, the reason and the time, and for a new one the
      worker and the hours as they were; an amended one keeps those it had. */
  lemma AskIsStored(s: State, c: Caller, id: nat, ask: Ask, reason: Option<string>, now: int)
    requires SendChangeRequest(s, c, id, ask, reason, now).1.Ok?
    ensures var (s', r) := SendChangeRequest(s, c, id, ask, reason, now);
            && id < |s.shifts| && r.value < |s'.requests| && s'.shifts == s.shifts && s'.reports == s.reports
            && var (sh, q) := (s.shifts[id], s'.requests[r.value]);
               && q.shift == id && q.status == RequestPending && q.reason == reason && q.createdAt == now
               && (ask.AskDelete? ==> q.change == Delete)
               && (ask.AskEdit? ==> q.change == Edit(if ask.start.Some? then ask.start.value else sh.start,
                                                     if ask.end.Some? then ask.end.value else sh.end))
               && (r.value < |s.requests| ==>
                     && OnlyRequest(s, s', r.value)
                     && var was := s.requests[r.value];
                        (q.worker, q.oldStart, q.oldEnd, q.reviewedBy, q.reviewedAt, q.note)
                        == (was.worker, was.oldStart, was.oldEnd, was.reviewedBy, was.reviewedAt, was.note))
               && (r.value >= |s.requests| ==>
                     && s'.requests == s.requests + [q]
                     && (q.worker, q.oldStart, q.oldEnd, q.reviewedBy, q.reviewedAt, q.note)
                        == (c.worker, sh.start, sh.end, None, None, None))
  {
    FirstPendingFound(s.requests, id, 0);
  }

  /** Withdrawing cancels a pending request of one's own, and nothing else. */
  lemma WithdrawIsExact(s: State, c: Caller, id: nat)
    ensures var (s', r) := WithdrawChangeRequest(s, c, id);
            && (r.Ok? <==> !c.staff && id < |s.requests| && s.requests[id].worker == c.worker && s.requests[id].status == RequestPending)
            && (r.Err? ==> s' == s)
            && (r.Ok? ==> OnlyRequest(s, s', id) && s'.requests[id] == s.requests[id].(status := RequestCancelled))
  {
  }

  /** A review is accepted exactly from staff, on a pending request for a live shift, with a note
      if it rejects, and an allowed claim if it moves a claim shift. A refused one changes
      nothing, but closes the request if its shift is gone. */
  lemma ReviewIsAcceptedIff(s: State, c: Caller, id: nat, approve: bool, note: Option<string>, now: int, known: bool)
    ensures var (s', r) := ReviewChangeRequest(s, c, id, approve, note, now, known);
            var reviewable := c.staff && id < |s.requests| && s.requests[id].status == RequestPending && (approve || note.Some?);
            var live := reviewable && s.requests[id].shift < |s.shifts| && s.shifts[s.requests[id].shift].status != ShiftCancelled;
            && (r.Ok? <==>
                  live && (approve && s.requests[id].change.Edit? && s.shifts[s.requests[id].shift].kind == Claim ==>
                             ClaimError(s.shifts, s.shifts[s.requests[id].shift].machine, s.requests[id].change.start,
                                        s.requests[id].change.end, known, true, Some(s.requests[id].shift)) == None))
            && (reviewable && !live ==> OnlyRequest(s, s', id) && s'.requests[id] == s.requests[id].(status := RequestCancelled))
            && (r.Err? && (live || !reviewable) ==> s' == s)
  {
    hide ClaimError;
  }

  /** What an accepted review writes: the verdict, by whom, when and why; and, if it approves,
      the window asked for, or the cancellation, on that shift alone. */
  lemma ReviewIsExact(s: State, c: Caller, id: nat, approve: bool, note: Option<string>, now: int, known: bool)
    requires ReviewChangeRequest(s, c, id, approve, note, now, known).1.Ok?
    ensures var s' := ReviewChangeRequest(s, c, id, approve, note, now, known).0;
            && id < |s.requests| && s.requests[id].shift < |s.shifts|
            && |s'.requests| == |s.requests| && |s'.shifts| == |s.shifts| && s'.reports == s.reports
            && (forall k :: 0 <= k < |s.requests| && k != id ==> s'.requests[k] == s.requests[k])
            && (forall k :: 0 <= k < |s.shifts| && k != s.requests[id].shift ==> s'.shifts[k] == s.shifts[k])
            && var (q, sh, sh') := (s.requests[id], s.shifts[s.requests[id].shift], s'.shifts[s.requests[id].shift]);
               && s'.requests[id] == ChangeRequest(q.shift, q.worker, q.oldStart, q.oldEnd, q.change, q.reason,
                                                   if approve then RequestApproved else RequestRejected, q.createdAt,
                                                   Some(c.admin), Some(now), note)
               && (!approve ==> sh' == sh)
               && (approve && q.change.Delete? ==> sh' == Shift(sh.worker, sh.machine, sh.start, sh.end, ShiftCancelled, sh.kind,
                                                                sh.approvedBy, sh.approvedAt))
               && (approve && q.change.Edit? ==> sh' == Shift(sh.worker, sh.machine, q.change.start, q.change.end, sh.status, sh.kind,
                                                              Some(c.admin), Some(now)))
  {
    hide ClaimError;
  }

  // ---- absence reports ---------------------------------------------------------------------

  /** A report is taken exactly with a proper window and reason, for no shift or for one that
      exists, is the caller's unless staff file it, and has no open report; it is then stored. */
  lemma FilingIsExact(s: State, c: Caller, shift: Option<nat>, start: int, end: int, category: nat, reason: string)
    ensures var (s', r) := FileAbsence(s, c, shift, start, end, category, reason);
            && (r.Ok? <==>
                  && start < end && |reason| >= 20
                  && (shift.Some? ==>
                        && shift.value < |s.shifts| && (c.staff || s.shifts[shift.value].worker == c.worker)
                        && forall i :: 0 <= i < |s.reports| && s.reports[i].shift == shift ==>
                             s.reports[i].status != ReportPending && s.reports[i].status != ReportAccepted))
            && (r.Err? ==> s' == s)
            && (r.Ok? ==>
                  && r.value == |s.reports| && s'.shifts == s.shifts && s'.requests == s.requests
                  && s'.reports == s.reports + [Report(c.worker, shift, start, end, category, reason, [], ReportPending, None, None, None)])
  {
  }

  /** Only its author amends a report, while it is pending, and only what is sent changes. */
  lemma AmendingIsExact(s: State, c: Caller, id: nat, window: Option<(int, int)>, category: Option<nat>, reason: Option<string>)
    ensures var (s', r) := AmendAbsence(s, c, id, window, category, reason);
            && (r.Ok? ==> id < |s.reports| && s.reports[id].worker == c.worker && s.reports[id].status == ReportPending)
            && (id < |s.reports| && s.reports[id].start < s.reports[id].end ==>
                  (r.Ok? <==> s.reports[id].worker == c.worker && s.reports[id].status == ReportPending
                              && (window.Some? ==> window.value.0 < window.value.1) && (reason.Some? ==> |reason.value| >= 20)))
            && (r.Err? ==> s' == s)
            && (r.Ok? ==>
                  && OnlyReport(s, s', id)
                  && var q := s.reports[id];
                     s'.reports[id] == Report(q.worker, q.shift, if window.Some? then window.value.0 else q.start,
                                              if window.Some? then window.value.1 else q.end,
                                              if category.Some? then category.value else q.category,
                                              if reason.Some? then reason.value else q.reason,
                                              q.attachments, q.status, q.reviewedBy, q.reviewedAt, q.note))
  {
  }

  /** A file is added to a pending report one may see, at most three in all, each once. */
  lemma AttachingIsExact(s: State, c: Caller, id: nat, path: Option<string>)
    ensures var (s', r) := AddAttachment(s, c, id, path);
            && (r.Ok? <==>
                  && id < |s.reports| && (c.staff || s.reports[id].worker == c.worker)
                  && s.reports[id].status == ReportPending && path.Some?
                  && (path.value in s.reports[id].attachments || |s.reports[id].attachments| < 3))
            && (r.Err? ==> s' == s)
            && (r.Ok? ==>
                  && OnlyReport(s, s', id) && path.value in s'.reports[id].attachments
                  && s'.reports[id] == s.reports[id].(attachments := s'.reports[id].attachments)
                  && s'.reports[id].attachments == s.reports[id].attachments
                     + (if path.value in s.reports[id].attachments then [] else [path.value]))
  {
  }

  /** A file is removed from a pending report one may see, and no other file. */
  lemma DetachingIsExact(s: State, c: Caller, id: nat, path: string)
    requires id < |s.reports| ==> Distinct(s.reports[id].attachments)
    ensures var (s', r) := RemoveAttachment(s, c, id, path);
            && (r.Ok? <==>
                  && id < |s.reports| && (c.staff || s.reports[id].worker == c.worker)
                  && s.reports[id].status == ReportPending && path in s.reports[id].attachments)
            && (r.Err? ==> s' == s)
            && (r.Ok? ==>
                  && OnlyReport(s, s', id)
                  && s'.reports[id] == s.reports[id].(attachments := s'.reports[id].attachments)
                  && forall x :: x in s'.reports[id].attachments <==> x in s.reports[id].attachments && x != path)
  {
    if id < |s.reports| {
      WithoutExact(s.reports[id].attachments, path);
    }
    hide Without;
  }

  /** Staff decide a pending report, with a note if they decline, and its author may withdraw it.
      The verdict is stored, with the administrator if staff gave it; and accepting, if asked to,
      cancels the linked shift and no other. */
  lemma DecisionIsExact(s: State, c: Caller, id: nat, decision: ReportStatus, note: Option<string>, cancelShift: bool, now: int)
    ensures var (s', r) := ReviewAbsence(s, c, id, decision, note, cancelShift, now);
            && (r.Ok? <==>
                  && id < |s.reports| && s.reports[id].status == ReportPending
                  && (c.staff || (s.reports[id].worker == c.worker && decision == ReportWithdrawn))
                  && decision != ReportPending && (decision == ReportDeclined ==> note.Some?))
            && (r.Err? ==> s' == s)
            && (r.Ok? ==>
                  && |s'.reports| == |s.reports| && |s'.shifts| == |s.shifts| && s'.requests == s.requests
                  && (forall k :: 0 <= k < |s.reports| && k != id ==> s'.reports[k] == s.reports[k])
                  && var q := s.reports[id];
                     && s'.reports[id] == Report(q.worker, q.shift, q.start, q.end, q.category, q.reason, q.attachments, decision,
                                                 if c.staff then Some(c.admin) else q.reviewedBy,
                                                 if c.staff then Some(now) else q.reviewedAt, note)
                     && forall k :: 0 <= k < |s.shifts| ==>
                          s'.shifts[k] == if decision == ReportAccepted && cancelShift && q.shift == Some(k)
                                          then s.shifts[k].(status := ShiftCancelled) else s.shifts[k])
  {
  }

  // ---- the last word on a shift's status ----------------------------------------------------

  /** The accepted call writes the status of shift i: by creating it, by sending a status, by
      deleting it, by granting its deletion, or by accepting an absence and cancelling it. */
  predicate WritesStatus(s: State, e: Event, i: nat) {
    && Step(s, e).1.Ok?
    && match e
       case OnCreateShift(_, body, _, _, _) => i == |s.shifts| && NoTwin(s.shifts, body)
       case OnUpdateShift(_, id, p, _, _, _) => i == id && p.status.Set?
       case OnDeleteShift(_, id) => i == id
       case OnReviewRequest(_, id, approve, _, _, _) => id < |s.requests| && s.requests[id].shift == i && approve && s.requests[id].change.Delete?
       case OnReviewAbsence(_, id, decision, _, cancel, _) =>
         id < |s.reports| && s.reports[id].shift == Some(i) && decision == ReportAccepted && cancel && i < |s.shifts|
       case _ => false
  }

  /** The status that such a call writes. */
  function Written(e: Event): ShiftStatus {
    match e
    case OnCreateShift(c, body, _, _, _) => if c.staff then body.status else ShiftPending
    case OnUpdateShift(_, _, p, _, _, _) => if p.status.Set? then p.status.value else ShiftCancelled
    case _ => ShiftCancelled
  }

  lemma StatusAfter(s: State, e: Event, i: nat)
    ensures |s.shifts| <= |Step(s, e).0.shifts|
    ensures i < |Step(s, e).0.shifts| && (i < |s.shifts| || WritesStatus(s, e, i)) ==>
              Step(s, e).0.shifts[i].status == if WritesStatus(s, e, i) then Written(e) else s.shifts[i].status
    ensures WritesStatus(s, e, i) ==> i < |Step(s, e).0.shifts|
  {
    hide ClaimError, HasOpenReport, Without, FirstPendingRequest;
    if e.OnCreateShift? {
      FirstTwinFound(s.shifts, e.body.worker, e.body.start, e.body.end, 0);
    } else if !OnShifts(e) {
      OthersLeaveShifts(s, e);
      hide Step;
    }
  }

  lemma {:induction false} RunSnoc(s: State, es: seq<Event>)
    requires es != []
    ensures Run(s, es) == Step(Run(s, es[..|es| - 1]), es[|es| - 1]).0
    decreases |es|
  {
    hide Step;
    if |es| > 1 {
      RunSnoc(Step(s, es[0]).0, es[1..]);
      assert es[1..][..|es| - 2] == es[..|es| - 1][1..];
    } else {
      assert es[1..] == [] && es[..0] == [];
      assert Run(s, es) == Run(Step(s, es[0]).0, []);
    }
  }

  /** In every run, a shift has exactly the status that the last accepted call to write it wrote;
      so it is approved exactly when that call approved it. */
  lemma {:induction false} LastWriteDecides(s: State, es: seq<Event>, i: nat, k: nat)
    requires k < |es| && WritesStatus(Run(s, es[..k]), es[k], i)
    requires forall j :: k < j < |es| ==> !WritesStatus(Run(s, es[..j]), es[j], i)
    ensures i < |Run(s, es).shifts| && Run(s, es).shifts[i].status == Written(es[k])
    decreases |es|
  {
    hide WritesStatus, Written, Step, Run;
    var (front, n) := (es[..|es| - 1], |es| - 1);
    RunSnoc(s, es);
    StatusAfter(Run(s, front), es[n], i);
    if k < n {
      assert forall j :: 0 <= j < n ==> front[..j] == es[..j] && front[j] == es[j];
      LastWriteDecides(s, front, i, k);
      assert front == es[..n];
    }
  }
}
