/** The endpoints themselves, on tables they update in place. Each is proved to do exactly what
    the function of the same name in module Roster says. */
module Schedule {
  import opened Wrappers
  import opened Roster

  class Database {
    var shifts: seq<Shift>
    var requests: seq<ChangeRequest>
    var reports: seq<Report>

    ghost function Now(): State
      reads this
    {
      State(shifts, requests, reports)
    }

    constructor ()
      ensures Now() == EMPTY
    {
      shifts, requests, reports := [], [], [];
    }

    // ---- lookups ---------------------------------------------------------------

    method FindTwin(worker: nat, start: int, end: int) returns (existing: Option<nat>)
      ensures existing == FirstTwin(shifts, worker, start, end, 0)
    {
      for i := 0 to |shifts|
        invariant FirstTwin(shifts, worker, start, end, i) == FirstTwin(shifts, worker, start, end, 0)
      {
        if IsTwin(shifts[i], worker, start, end) {
          return Some(i);
        }
      }
      return None;
    }

    /** validate_claim_shift, with its search for an overlapping one. */
    method ValidateClaim(machine: Option<nat>, start: int, end: int, known: bool, visible: bool, exclude: Option<nat>)
      returns (error: Option<Error>)
      ensures error == ClaimError(shifts, machine, start, end, known, visible, exclude)
    {
      if machine.None? {
        return Some(BadRequest);
      }
      if !known {
        return Some(NotFound);
      }
      if !visible {
        return Some(Forbidden);
      }
      for i := 0 to |shifts|
        invariant forall k :: 0 <= k < i ==>
          !(Some(k) != exclude && shifts[k].kind == Claim && shifts[k].machine == machine
            && Holding(shifts[k]) && Overlaps(shifts[k], start, end))
      {
        if Some(i) != exclude && shifts[i].kind == Claim && shifts[i].machine == machine
           && Holding(shifts[i]) && Overlaps(shifts[i], start, end) {
          return Some(Conflict);
        }
      }
      return None;
    }

    method FindPending(shift: nat) returns (open: Option<nat>)
      ensures open == FirstPendingRequest(requests, shift, 0)
    {
      for i := 0 to |requests|
        invariant FirstPendingRequest(requests, shift, i) == FirstPendingRequest(requests, shift, 0)
      {
        if requests[i].shift == shift && requests[i].status == RequestPending {
          return Some(i);
        }
      }
      return None;
    }

    method AlreadyReported(shift: nat) returns (r: bool)
      ensures r == HasOpenReport(reports, shift)
    {
      for i := 0 to |reports|
        invariant forall k :: 0 <= k < i ==> !(reports[k].shift == Some(shift) && Counts(reports[k]))
      {
        if reports[i].shift == Some(shift) && Counts(reports[i]) {
          return true;
        }
      }
      return false;
    }

    // ---- shifts ----------------------------------------------------------------

    method CreateShift(c: Caller, body: NewShift, approved: bool, known: bool, visible: bool) returns (r: Answer)
      modifies this
      ensures (Now(), r) == Roster.CreateShift(old(Now()), c, body, approved, known, visible)
    {
      var status := body.status;
      if !c.staff {
        status := ShiftPending;
        if body.worker != c.worker || !approved {
          return Err(Forbidden);
        }
      }
      var existing := FindTwin(body.worker, body.start, body.end);
      if existing.Some? {
        return Ok(existing.value);
      }
      if body.kind == Claim {
        var error := ValidateClaim(body.machine, body.start, body.end, known, c.staff || visible, None);
        if error.Some? {
          return Err(error.value);
        }
      }
      shifts := shifts + [Shift(body.worker, body.machine, body.start, body.end, status, body.kind, None, None)];
      return Ok(|shifts| - 1);
    }

    method CheckNewTimes(sh: Shift, p: Patch, staff: bool, now: int) returns (ok: bool)
      ensures ok == TimesAllowed(sh, p, staff, now)
    {
      var start, end := p.start.Or(sh.start), p.end.Or(sh.end);
      if end <= start || end - start > DAY {
        return false;
      }
      if staff {
        return true;
      }
      return sh.status == ShiftPending && sh.start > now && start > now;
    }

    method UpdateShift(c: Caller, id: nat, p: Patch, now: int, known: bool, assignable: bool) returns (r: Answer)
      modifies this
      ensures (Now(), r) == Roster.UpdateShift(old(Now()), c, id, p, now, known, assignable)
    {
      if id >= |shifts| || !(c.staff || shifts[id].worker == c.worker) {
        return Err(NotFound);
      }
      var previous := shifts[id];
      if !c.staff && p.StaffOnly() {
        return Err(Forbidden);
      }
      if p.MovesTimes() {
        var ok := CheckNewTimes(previous, p, c.staff, now);
        if !ok {
          return Err(BadRequest);
        }
      }
      if p.Unstorable() {
        return Err(DatabaseError);
      }
      var sh := Patched(previous, p);
      var approving := sh.status == ShiftApproved && previous.status != ShiftApproved;
      if sh.kind == Claim {
        if Holding(sh) && (p.MovesTimes() || p.machine != Unset || approving) {
          var error := ValidateClaim(sh.machine, sh.start, sh.end, known, true, Some(id));
          if error.Some? {
            return Err(error.value);
          }
        }
      } else if approving && sh.machine.Some? && !assignable {
        return Err(Conflict);
      }
      shifts := shifts[id := sh];
      return Ok(id);
    }

    method DeleteShift(c: Caller, id: nat) returns (r: Answer)
      modifies this
      ensures (Now(), r) == Roster.DeleteShift(old(Now()), c, id)
    {
      if id >= |shifts| || !(c.staff || shifts[id].worker == c.worker) {
        return Err(NotFound);
      }
      if shifts[id].status == ShiftCancelled {
        return Ok(id);
      }
      if !c.staff && shifts[id].status != ShiftPending {
        return Err(Conflict);
      }
      shifts := shifts[id := shifts[id].(status := ShiftCancelled)];
      return Ok(id);
    }

    // ---- change requests --------------------------------------------------------

    method SendChangeRequest(c: Caller, id: nat, ask: Ask, reason: Option<string>, now: int) returns (r: Answer)
      modifies this
      ensures (Now(), r) == Roster.SendChangeRequest(old(Now()), c, id, ask, reason, now)
    {
      if c.staff {
        return Err(Forbidden);
      }
      if id >= |shifts| || shifts[id].worker != c.worker {
        return Err(NotFound);
      }
      var sh := shifts[id];
      if sh.status != ShiftApproved {
        return Err(Conflict);
      }
      if sh.start <= now {
        return Err(BadRequest);
      }
      var change := Delete;
      if ask.AskEdit? {
        var start, end := ask.start.GetOr(sh.start), ask.end.GetOr(sh.end);
        if end <= start || end - start > DAY || start <= now || (start == sh.start && end == sh.end) {
          return Err(BadRequest);
        }
        change := Edit(start, end);
      }
      var open := FindPending(id);
      var at := |requests|;
      if open.None? {
        requests := requests + [ChangeRequest(id, c.worker, sh.start, sh.end, change, reason, RequestPending, now, None, None, None)];
      } else {
        at := open.value;
        requests := requests[at := requests[at].(change := change, reason := reason, createdAt := now)];
      }
      return Ok(at);
    }

    method WithdrawChangeRequest(c: Caller, id: nat) returns (r: Answer)
      modifies this
      ensures (Now(), r) == Roster.WithdrawChangeRequest(old(Now()), c, id)
    {
      if c.staff {
        return Err(Forbidden);
      }
      if id >= |requests| || requests[id].worker != c.worker {
        return Err(NotFound);
      }
      if requests[id].status != RequestPending {
        return Err(Conflict);
      }
      requests := requests[id := requests[id].(status := RequestCancelled)];
      return Ok(id);
    }

    method ReviewChangeRequest(c: Caller, id: nat, approve: bool, note: Option<string>, now: int, known: bool) returns (r: Answer)
      modifies this
      ensures (Now(), r) == Roster.ReviewChangeRequest(old(Now()), c, id, approve, note, now, known)
    {
      if !c.staff {
        return Err(Forbidden);
      }
      if id >= |requests| {
        return Err(NotFound);
      }
      var req := requests[id];
      if req.status != RequestPending {
        return Err(Conflict);
      }
      if !approve && note.None? {
        return Err(BadRequest);
      }
      if req.shift >= |shifts| || shifts[req.shift].status == ShiftCancelled {
        requests := requests[id := req.(status := RequestCancelled)];
        return Err(Conflict);
      }
      var sh := shifts[req.shift];
      if approve {
        match req.change {
          case Edit(start, end) =>
            if sh.kind == Claim {
              var error := ValidateClaim(sh.machine, start, end, known, true, Some(req.shift));
              if error.Some? {
                return Err(error.value);
              }
            }
            sh := sh.(start := start, end := end, approvedBy := Some(c.admin), approvedAt := Some(now));
          case Delete =>
            sh := sh.(status := ShiftCancelled);
        }
        shifts := shifts[req.shift := sh];
      } else {
        assert shifts == shifts[req.shift := sh];
      }
      req := req.(status := if approve then RequestApproved else RequestRejected,
                  reviewedBy := Some(c.admin), reviewedAt := Some(now), note := note);
      requests := requests[id := req];
      return Ok(id);
    }

    // ---- absence reports -----------------------------------------------------------

    method FileAbsence(c: Caller, shift: Option<nat>, start: int, end: int, category: nat, reason: string) returns (r: Answer)
      modifies this
      ensures (Now(), r) == Roster.FileAbsence(old(Now()), c, shift, start, end, category, reason)
    {
      if end <= start || |reason| < MIN_REASON_CHARS {
        return Err(Unprocessable);
      }
      if shift.Some? {
        if shift.value >= |shifts| {
          return Err(NotFound);
        }
        if shifts[shift.value].worker != c.worker && !c.staff {
          return Err(Forbidden);
        }
        var reported := AlreadyReported(shift.value);
        if reported {
          return Err(Conflict);
        }
      }
      reports := reports + [Report(c.worker, shift, start, end, category, reason, [], ReportPending, None, None, None)];
      return Ok(|reports| - 1);
    }

    method AmendAbsence(c: Caller, id: nat, window: Option<(int, int)>, category: Option<nat>, reason: Option<string>) returns (r: Answer)
      modifies this
      ensures (Now(), r) == Roster.AmendAbsence(old(Now()), c, id, window, category, reason)
    {
      if (window.Some? && window.value.1 <= window.value.0) || (reason.Some? && |reason.value| < MIN_REASON_CHARS) {
        return Err(Unprocessable);
      }
      if id >= |reports| || !(c.staff || reports[id].worker == c.worker) {
        return Err(NotFound);
      }
      var report := reports[id];
      if report.worker != c.worker {
        return Err(Forbidden);
      }
      if report.status != ReportPending {
        return Err(Conflict);
      }
      if window.None? && category.None? && reason.None? {
        assert reports == reports[id := report];
        return Ok(id);
      }
      var (start, end) := window.GetOr((report.start, report.end));
      if end <= start {
        return Err(BadRequest);
      }
      report := report.(start := start, end := end);
      if category.Some? {
        report := report.(category := category.value);
      }
      if reason.Some? {
        report := report.(reason := reason.value);
      }
      reports := reports[id := report];
      return Ok(id);
    }

    method AddAttachment(c: Caller, id: nat, path: Option<string>) returns (r: Answer)
      modifies this
      ensures (Now(), r) == Roster.AddAttachment(old(Now()), c, id, path)
    {
      if id >= |reports| || !(c.staff || reports[id].worker == c.worker) {
        return Err(NotFound);
      }
      if reports[id].status != ReportPending || path.None? {
        return Err(BadRequest);
      }
      var current := reports[id].attachments;
      if path.value in current {
        return Ok(id);
      }
      if |current| >= MAX_ATTACHMENTS {
        return Err(BadRequest);
      }
      reports := reports[id := reports[id].(attachments := current + [path.value])];
      return Ok(id);
    }

    static method DropPath(current: seq<string>, path: string) returns (remaining: seq<string>)
      ensures remaining == Without(current, path)
    {
      remaining := [];
      for i := 0 to |current|
        invariant remaining + Without(current[i..], path) == Without(current, path)
      {
        if current[i] != path {
          remaining := remaining + [current[i]];
        }
      }
    }

    method RemoveAttachment(c: Caller, id: nat, path: string) returns (r: Answer)
      modifies this
      ensures (Now(), r) == Roster.RemoveAttachment(old(Now()), c, id, path)
    {
      if id >= |reports| || !(c.staff || reports[id].worker == c.worker) {
        return Err(NotFound);
      }
      if reports[id].status != ReportPending {
        return Err(BadRequest);
      }
      var current := reports[id].attachments;
      var remaining := DropPath(current, path);
      WithoutLength(current, path);
      if |remaining| == |current| {
        return Err(NotFound);
      }
      reports := reports[id := reports[id].(attachments := remaining)];
      return Ok(id);
    }

    method ReviewAbsence(c: Caller, id: nat, decision: ReportStatus, note: Option<string>, cancelShift: bool, now: int) returns (r: Answer)
      modifies this
      ensures (Now(), r) == Roster.ReviewAbsence(old(Now()), c, id, decision, note, cancelShift, now)
    {
      if id >= |reports| || !(c.staff || reports[id].worker == c.worker) {
        return Err(NotFound);
      }
      var report := reports[id];
      if !c.staff && decision != ReportWithdrawn {
        return Err(Forbidden);
      }
      if report.status != ReportPending {
        return Err(Conflict);
      }
      if decision == ReportPending || (decision == ReportDeclined && note.None?) {
        return Err(BadRequest);
      }
      report := report.(status := decision, note := note);
      if c.staff {
        report := report.(reviewedBy := Some(c.admin), reviewedAt := Some(now));
      }
      if decision == ReportAccepted && cancelShift && report.shift.Some? && report.shift.value < |shifts| {
        var sh := shifts[report.shift.value];
        if sh.status != ShiftCancelled {
          shifts := shifts[report.shift.value := sh.(status := ShiftCancelled)];
        } else {
          assert shifts == shifts[report.shift.value := sh.(status := ShiftCancelled)];
        }
      }
      reports := reports[id := report];
      return Ok(id);
    }

    // ---- the two summaries ------------------------------------------------------------

    method ChangeRequestSummary(c: Caller) returns (flagged: seq<nat>)
      ensures flagged == FlaggedByRequests(Now(), c, |requests|)
    {
      flagged := [];
      for i := 0 to |requests|
        invariant flagged == FlaggedByRequests(Now(), c, i)
      {
        var r := requests[i];
        if (c.staff || r.worker == c.worker) && r.status == RequestPending
           && r.shift < |shifts| && shifts[r.shift].status != ShiftCancelled {
          flagged := flagged + [r.shift];
        }
      }
    }

    method AbsenceSummary(c: Caller) returns (flagged: seq<nat>)
      ensures flagged == FlaggedByReports(Now(), c, |reports|)
    {
      flagged := [];
      for i := 0 to |reports|
        invariant flagged == FlaggedByReports(Now(), c, i)
      {
        var r := reports[i];
        if (c.staff || r.worker == c.worker) && Counts(r) && r.shift.Some? {
          flagged := flagged + [r.shift.value];
        }
      }
    }
  }

  /** Dropping a path shortens the list exactly when the path was on it. */
  lemma {:induction false} WithoutLength(paths: seq<string>, path: string)
    ensures |Without(paths, path)| <= |paths|
    ensures |Without(paths, path)| == |paths| <==> path !in paths
  {
    if paths != [] {
      WithoutLength(paths[1..], path);
    }
  }
}
