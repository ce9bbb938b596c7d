/** The schedule of backend/routers/shifts.py and backend/routers/absence_reports.py: shifts,
    requests to change an approved shift, and absence reports, with the endpoints that change
    them. Rows are never deleted, so a row's index is its id. Instants are seconds. */
module Roster {
  import opened Wrappers

  datatype ShiftStatus = ShiftPending | ShiftApproved | ShiftRejected | ShiftCancelled

  /** A claim shift holds its machine during its hours. */
  datatype ShiftKind = Normal | Claim

  datatype Shift = Shift(worker: nat, machine: Option<nat>, start: int, end: int, status: ShiftStatus,
                         kind: ShiftKind, approvedBy: Option<nat>, approvedAt: Option<int>)

  /** What is asked for; an edit carries the new window. */
  datatype Change = Edit(start: int, end: int) | Delete

  datatype RequestStatus = RequestPending | RequestApproved | RequestRejected | RequestCancelled

  datatype ChangeRequest = ChangeRequest(shift: nat, worker: nat, oldStart: int, oldEnd: int, change: Change,
                                         reason: Option<string>, status: RequestStatus, createdAt: int,
                                         reviewedBy: Option<nat>, reviewedAt: Option<int>, note: Option<string>)

  datatype ReportStatus = ReportPending | ReportAccepted | ReportDeclined | ReportWithdrawn

  datatype Report = Report(worker: nat, shift: Option<nat>, start: int, end: int, category: nat, reason: string,
                           attachments: seq<string>, status: ReportStatus,
                           reviewedBy: Option<nat>, reviewedAt: Option<int>, note: Option<string>)

  datatype State = State(shifts: seq<Shift>, requests: seq<ChangeRequest>, reports: seq<Report>)

  datatype Error = BadRequest | Forbidden | NotFound | Conflict | Unprocessable | DatabaseError

  type Answer = Result<nat, Error>

  /** Who is calling: a staff account also has a worker profile of its own. */
  datatype Caller = Caller(staff: bool, worker: nat, admin: nat)

  const DAY := 86400
  const MAX_ATTACHMENTS := 3
  const MIN_REASON_CHARS := 20

  // ---- queries -----------------------------------------------------------------

  predicate Holding(sh: Shift) {
    sh.status == ShiftPending || sh.status == ShiftApproved
  }

  predicate Overlaps(sh: Shift, start: int, end: int) {
    sh.start < end && sh.end > start
  }

  /** overlapping_claim_shift: another claim shift holding the machine in that window. */
  predicate Clash(shifts: seq<Shift>, machine: nat, start: int, end: int, exclude: Option<nat>) {
    exists i :: 0 <= i < |shifts| && Some(i) != exclude && shifts[i].kind == Claim
                && shifts[i].machine == Some(machine) && Holding(shifts[i]) && Overlaps(shifts[i], start, end)
  }

  /** validate_claim_shift; `known` and `visible` are the answers about the machine itself. */
  function ClaimError(shifts: seq<Shift>, machine: Option<nat>, start: int, end: int,
                      known: bool, visible: bool, exclude: Option<nat>): Option<Error> {
    if machine.None? then Some(BadRequest)
    else if !known then Some(NotFound)
    else if !visible then Some(Forbidden)
    else if Clash(shifts, machine.value, start, end, exclude) then Some(Conflict)
    else None
  }

  predicate IsTwin(sh: Shift, worker: nat, start: int, end: int) {
    sh.worker == worker && sh.start == start && sh.end == end && sh.status != ShiftCancelled
  }

  function FirstTwin(shifts: seq<Shift>, worker: nat, start: int, end: int, from: nat): (i: Option<nat>)
    requires from <= |shifts|
    ensures i.Some? ==> from <= i.value < |shifts| && IsTwin(shifts[i.value], worker, start, end)
    decreases |shifts| - from
  {
    if from == |shifts| then None
    else if IsTwin(shifts[from], worker, start, end) then Some(from)
    else FirstTwin(shifts, worker, start, end, from + 1)
  }

  function FirstPendingRequest(requests: seq<ChangeRequest>, shift: nat, from: nat): (i: Option<nat>)
    requires from <= |requests|
    ensures i.Some? ==> from <= i.value < |requests| && requests[i.value].shift == shift && requests[i.value].status == RequestPending
    decreases |requests| - from
  {
    if from == |requests| then None
    else if requests[from].shift == shift && requests[from].status == RequestPending then Some(from)
    else FirstPendingRequest(requests, shift, from + 1)
  }

  predicate Counts(r: Report) {
    r.status == ReportPending || r.status == ReportAccepted
  }

  predicate HasOpenReport(reports: seq<Report>, shift: nat) {
    exists i :: 0 <= i < |reports| && reports[i].shift == Some(shift) && Counts(reports[i])
  }

  predicate OwnsShift(s: State, c: Caller, id: nat) {
    id < |s.shifts| && (c.staff || s.shifts[id].worker == c.worker)
  }

  predicate SeesReport(s: State, c: Caller, id: nat) {
    id < |s.reports| && (c.staff || s.reports[id].worker == c.worker)
  }

  /** end > start, and at most a day long. */
  predicate ProperWindow(start: int, end: int) {
    start < end <= start + DAY
  }

  // ---- shifts --------------------------------------------------------------------

  datatype NewShift = NewShift(worker: nat, machine: Option<nat>, start: int, end: int,
                               status: ShiftStatus, kind: ShiftKind)

  function CreateShift(s: State, c: Caller, body: NewShift, approved: bool, known: bool, visible: bool): (State, Answer) {
    if !c.staff && (body.worker != c.worker || !approved) then (s, Err(Forbidden))
    else
      var twin := FirstTwin(s.shifts, body.worker, body.start, body.end, 0);
      if twin.Some? then (s, Ok(twin.value))
      else
        var error := if body.kind == Normal then None
                     else ClaimError(s.shifts, body.machine, body.start, body.end, known, c.staff || visible, None);
        if error.Some? then (s, Err(error.value))
        else
          var sh := Shift(body.worker, body.machine, body.start, body.end,
                          if c.staff then body.status else ShiftPending, body.kind, None, None);
          (s.(shifts := s.shifts + [sh]), Ok(|s.shifts|))
  }

  /** A field of a PATCH body: left out, sent as null, or sent with a value. */
  datatype Field<+T> = Unset | Null | Set(value: T) {
    function Or(current: T): T {
      match this
      case Set(v) => v
      case _ => current
    }
  }

  datatype Patch = Patch(start: Field<int>, end: Field<int>, machine: Field<nat>, status: Field<ShiftStatus>,
                         approvedBy: Field<nat>, approvedAt: Field<int>) {
    predicate MovesTimes() {
      start != Unset || end != Unset
    }

    predicate StaffOnly() {
      machine != Unset || status != Unset || approvedBy != Unset || approvedAt != Unset
    }

    /** Sets a column that must not be null to null. */
    predicate Unstorable() {
      start.Null? || end.Null? || status.Null?
    }
  }

  function Patched(sh: Shift, p: Patch): Shift {
    sh.(start := p.start.Or(sh.start), end := p.end.Or(sh.end), status := p.status.Or(sh.status),
        machine := Merge(p.machine, sh.machine), approvedBy := Merge(p.approvedBy, sh.approvedBy),
        approvedAt := Merge(p.approvedAt, sh.approvedAt))
  }

  function Merge<T>(f: Field<T>, current: Option<T>): Option<T> {
    match f
    case Set(v) => Some(v)
    case Null => None
    case Unset => current
  }

  /** _check_new_times. */
  predicate TimesAllowed(sh: Shift, p: Patch, staff: bool, now: int) {
    && ProperWindow(p.start.Or(sh.start), p.end.Or(sh.end))
    && (staff || (sh.status == ShiftPending && sh.start > now && p.start.Or(sh.start) > now))
  }

  predicate NeedsClaimCheck(sh: Shift, p: Patch) {
    && sh.kind == Claim && Holding(Patched(sh, p))
    && (p.MovesTimes() || p.machine != Unset || (Patched(sh, p).status == ShiftApproved && sh.status != ShiftApproved))
  }

  function UpdateShift(s: State, c: Caller, id: nat, p: Patch, now: int, known: bool, assignable: bool): (State, Answer) {
    if !OwnsShift(s, c, id) then (s, Err(NotFound))
    else
      var old_ := s.shifts[id];
      var sh := Patched(old_, p);
      if !c.staff && p.StaffOnly() then (s, Err(Forbidden))
      else if p.MovesTimes() && !TimesAllowed(old_, p, c.staff, now) then (s, Err(BadRequest))
      else if p.Unstorable() then (s, Err(DatabaseError))
      else
        var error := if NeedsClaimCheck(old_, p)
                     then ClaimError(s.shifts, sh.machine, sh.start, sh.end, known, true, Some(id)) else None;
        if error.Some? then (s, Err(error.value))
        else if sh.kind != Claim && sh.status == ShiftApproved && old_.status != ShiftApproved
                && sh.machine.Some? && !assignable then (s, Err(Conflict))
        else (s.(shifts := s.shifts[id := sh]), Ok(id))
  }

  function DeleteShift(s: State, c: Caller, id: nat): (State, Answer) {
    if !OwnsShift(s, c, id) then (s, Err(NotFound))
    else if s.shifts[id].status == ShiftCancelled then (s, Ok(id))
    else if !c.staff && s.shifts[id].status != ShiftPending then (s, Err(Conflict))
    else (s.(shifts := s.shifts[id := s.shifts[id].(status := ShiftCancelled)]), Ok(id))
  }

  // ---- change requests -------------------------------------------------------------

  datatype Ask = AskEdit(start: Option<int>, end: Option<int>) | AskDelete

  function SendChangeRequest(s: State, c: Caller, id: nat, ask: Ask, reason: Option<string>, now: int): (State, Answer) {
    if c.staff then (s, Err(Forbidden))
    else if !OwnsShift(s, c, id) then (s, Err(NotFound))
    else
      var sh := s.shifts[id];
      if sh.status != ShiftApproved then (s, Err(Conflict))
      else if sh.start <= now then (s, Err(BadRequest))
      else
        var change := if ask.AskDelete? then Delete else Edit(ask.start.GetOr(sh.start), ask.end.GetOr(sh.end));
        if change.Edit? && (!ProperWindow(change.start, change.end) || change.start <= now
                            || (change.start == sh.start && change.end == sh.end)) then (s, Err(BadRequest))
        else
          var open := FirstPendingRequest(s.requests, id, 0);
          if open.None? then
            var r := ChangeRequest(id, c.worker, sh.start, sh.end, change, reason, RequestPending, now, None, None, None);
            (s.(requests := s.requests + [r]), Ok(|s.requests|))
          else
            (AmendRequest(s, open.value, change, reason, now), Ok(open.value))
  }

  function AmendRequest(s: State, r: nat, change: Change, reason: Option<string>, now: int): State
    requires r < |s.requests|
  {
    s.(requests := s.requests[r := s.requests[r].(change := change, reason := reason, createdAt := now)])
  }

  function WithdrawChangeRequest(s: State, c: Caller, id: nat): (State, Answer) {
    if c.staff then (s, Err(Forbidden))
    else if id >= |s.requests| || s.requests[id].worker != c.worker then (s, Err(NotFound))
    else if s.requests[id].status != RequestPending then (s, Err(Conflict))
    else (CloseRequest(s, id), Ok(id))
  }

  function CloseRequest(s: State, id: nat): State
    requires id < |s.requests|
  {
    s.(requests := s.requests[id := s.requests[id].(status := RequestCancelled)])
  }

  /** Note that a refused review may still write: a request on a cancelled shift is closed. */
  function ReviewChangeRequest(s: State, c: Caller, id: nat, approve: bool, note: Option<string>, now: int, known: bool): (State, Answer) {
    if !c.staff then (s, Err(Forbidden))
    else if id >= |s.requests| then (s, Err(NotFound))
    else
      var r := s.requests[id];
      if r.status != RequestPending then (s, Err(Conflict))
      else if !approve && note.None? then (s, Err(BadRequest))
      else if r.shift >= |s.shifts| || s.shifts[r.shift].status == ShiftCancelled then (CloseRequest(s, id), Err(Conflict))
      else
        var sh := s.shifts[r.shift];
        var error := if approve && r.change.Edit? && sh.kind == Claim
                     then ClaimError(s.shifts, sh.machine, r.change.start, r.change.end, known, true, Some(r.shift)) else None;
        if error.Some? then (s, Err(error.value))
        else
          var sh' := if !approve then sh
                     else if r.change.Edit? then sh.(start := r.change.start, end := r.change.end,
                                                     approvedBy := Some(c.admin), approvedAt := Some(now))
                     else sh.(status := ShiftCancelled);
          var r' := r.(status := if approve then RequestApproved else RequestRejected,
                       reviewedBy := Some(c.admin), reviewedAt := Some(now), note := note);
          (s.(shifts := s.shifts[r.shift := sh'], requests := s.requests[id := r']), Ok(id))
  }

  // ---- absence reports ---------------------------------------------------------------

  function FileAbsence(s: State, c: Caller, shift: Option<nat>, start: int, end: int, category: nat, reason: string): (State, Answer) {
    if end <= start || |reason| < MIN_REASON_CHARS then (s, Err(Unprocessable))
    else if shift.Some? && shift.value >= |s.shifts| then (s, Err(NotFound))
    else if shift.Some? && s.shifts[shift.value].worker != c.worker && !c.staff then (s, Err(Forbidden))
    else if shift.Some? && HasOpenReport(s.reports, shift.value) then (s, Err(Conflict))
    else
      (s.(reports := s.reports + [Report(c.worker, shift, start, end, category, reason, [], ReportPending, None, None, None)]),
       Ok(|s.reports|))
  }

  function AmendAbsence(s: State, c: Caller, id: nat, window: Option<(int, int)>, category: Option<nat>, reason: Option<string>): (State, Answer) {
    if (window.Some? && window.value.1 <= window.value.0) || (reason.Some? && |reason.value| < MIN_REASON_CHARS) then
      (s, Err(Unprocessable))
    else if !SeesReport(s, c, id) then (s, Err(NotFound))
    else
      var r := s.reports[id];
      if r.worker != c.worker then (s, Err(Forbidden))
      else if r.status != ReportPending then (s, Err(Conflict))
      else
        var (start, end) := window.GetOr((r.start, r.end));
        if (window.Some? || category.Some? || reason.Some?) && end <= start then (s, Err(BadRequest))
        else
          var r' := r.(start := start, end := end, category := category.GetOr(r.category), reason := reason.GetOr(r.reason));
          (s.(reports := s.reports[id := r']), Ok(id))
  }

  /** `path` is the validated storage path, if it is one. */
  function AddAttachment(s: State, c: Caller, id: nat, path: Option<string>): (State, Answer) {
    if !SeesReport(s, c, id) then (s, Err(NotFound))
    else
      var r := s.reports[id];
      if r.status != ReportPending || path.None? then (s, Err(BadRequest))
      else if path.value in r.attachments then (s, Ok(id))
      else if |r.attachments| >= MAX_ATTACHMENTS then (s, Err(BadRequest))
      else (s.(reports := s.reports[id := r.(attachments := r.attachments + [path.value])]), Ok(id))
  }

  function Without(paths: seq<string>, path: string): seq<string> {
    if paths == [] then []
    else (if paths[0] == path then [] else [paths[0]]) + Without(paths[1..], path)
  }

  function RemoveAttachment(s: State, c: Caller, id: nat, path: string): (State, Answer) {
    if !SeesReport(s, c, id) then (s, Err(NotFound))
    else
      var r := s.reports[id];
      if r.status != ReportPending then (s, Err(BadRequest))
      else if path !in r.attachments then (s, Err(NotFound))
      else (s.(reports := s.reports[id := r.(attachments := Without(r.attachments, path))]), Ok(id))
  }

  function ReviewAbsence(s: State, c: Caller, id: nat, decision: ReportStatus, note: Option<string>, cancelShift: bool, now: int): (State, Answer) {
    if !SeesReport(s, c, id) then (s, Err(NotFound))
    else
      var r := s.reports[id];
      if !c.staff && decision != ReportWithdrawn then (s, Err(Forbidden))
      else if r.status != ReportPending then (s, Err(Conflict))
      else if decision == ReportPending || (decision == ReportDeclined && note.None?) then (s, Err(BadRequest))
      else
        var r' := r.(status := decision, note := note,
                     reviewedBy := if c.staff then Some(c.admin) else r.reviewedBy,
                     reviewedAt := if c.staff then Some(now) else r.reviewedAt);
        var shifts := if decision == ReportAccepted && cancelShift && r.shift.Some? && r.shift.value < |s.shifts|
                      then s.shifts[r.shift.value := s.shifts[r.shift.value].(status := ShiftCancelled)]
                      else s.shifts;
        (s.(shifts := shifts, reports := s.reports[id := r']), Ok(id))
  }

  // ---- the two summaries -----------------------------------------------------------

  /** change_request_summary: the shifts of the caller's pending requests on live shifts. */
  function FlaggedByRequests(s: State, c: Caller, upto: nat): seq<nat>
    requires upto <= |s.requests|
  {
    if upto == 0 then []
    else
      var r := s.requests[upto - 1];
      FlaggedByRequests(s, c, upto - 1)
      + if (c.staff || r.worker == c.worker) && r.status == RequestPending
           && r.shift < |s.shifts| && s.shifts[r.shift].status != ShiftCancelled then [r.shift] else []
  }

  /** absence_summary: the shifts of the caller's pending or accepted reports. */
  function FlaggedByReports(s: State, c: Caller, upto: nat): seq<nat>
    requires upto <= |s.reports|
  {
    if upto == 0 then []
    else
      var r := s.reports[upto - 1];
      FlaggedByReports(s, c, upto - 1)
      + if (c.staff || r.worker == c.worker) && Counts(r) && r.shift.Some? then [r.shift.value] else []
  }

  // ---- runs ------------------------------------------------------------------------

  datatype Event =
    | OnCreateShift(c: Caller, body: NewShift, approved: bool, known: bool, visible: bool)
    | OnUpdateShift(c: Caller, id: nat, patch: Patch, now: int, known: bool, assignable: bool)
    | OnDeleteShift(c: Caller, id: nat)
    | OnSendRequest(c: Caller, id: nat, ask: Ask, reason: Option<string>, now: int)
    | OnWithdrawRequest(c: Caller, id: nat)
    | OnReviewRequest(c: Caller, id: nat, approve: bool, note: Option<string>, now: int, known: bool)
    | OnFileAbsence(c: Caller, shift: Option<nat>, start: int, end: int, category: nat, text: string)
    | OnAmendAbsence(c: Caller, id: nat, window: Option<(int, int)>, category_: Option<nat>, text_: Option<string>)
    | OnAddAttachment(c: Caller, id: nat, path: Option<string>)
    | OnRemoveAttachment(c: Caller, id: nat, path_: string)
    | OnReviewAbsence(c: Caller, id: nat, decision: ReportStatus, note: Option<string>, cancelShift: bool, now: int)

  function Step(s: State, e: Event): (State, Answer) {
    match e
    case OnCreateShift(c, body, approved, known, visible) => CreateShift(s, c, body, approved, known, visible)
    case OnUpdateShift(c, id, patch, now, known, assignable) => UpdateShift(s, c, id, patch, now, known, assignable)
    case OnDeleteShift(c, id) => DeleteShift(s, c, id)
    case OnSendRequest(c, id, ask, reason, now) => SendChangeRequest(s, c, id, ask, reason, now)
    case OnWithdrawRequest(c, id) => WithdrawChangeRequest(s, c, id)
    case OnReviewRequest(c, id, approve, note, now, known) => ReviewChangeRequest(s, c, id, approve, note, now, known)
    case OnFileAbsence(c, shift, start, end, category, text) => FileAbsence(s, c, shift, start, end, category, text)
    case OnAmendAbsence(c, id, window, category, text) => AmendAbsence(s, c, id, window, category, text)
    case OnAddAttachment(c, id, path) => AddAttachment(s, c, id, path)
    case OnRemoveAttachment(c, id, path) => RemoveAttachment(s, c, id, path)
    case OnReviewAbsence(c, id, decision, note, cancelShift, now) => ReviewAbsence(s, c, id, decision, note, cancelShift, now)
  }

  function Run(s: State, es: seq<Event>): State
    decreases |es|
  {
    if es == [] then s else Run(Step(s, es[0]).0, es[1..])
  }

  const EMPTY := State([], [], [])
}
