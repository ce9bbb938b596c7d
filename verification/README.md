# Model and proofs of the platform's stateful core

This project models, in Dafny, the parts of the platform where one call's effect is only right because of what other calls
do, and proves what holds over every input, every run or every interleaving. Each part follows its source branch by branch.

- **Rate limiting** (`RateLimit.dfy`, `OtpChallenge.dfy`): the Redis counter behind every sensitive route, over traces of
  requests on any keys, and the “resends remaining” figure shown to users.
- **Base64 and what rests on it** (`Base64.dfy`, `TextCodec.dfy`): Python's and the browser's decoders over real six-bit and
  eight-bit arithmetic. On top of them the gateway's connection identifiers and the close-and-confirm loop
  (`ConnectionId.dfy`, `Gateway.dfy`), and the signed session cookie with its two verifiers
  (`SessionCookie.dfy`, `SessionLaws.dfy`).
- **Shifts, change requests and absences** (`Roster.dfy`, `RosterLaws.dfy`, `RosterEpisodes.dfy`, `RosterEffects.dfy`,
  `Schedule.dfy`): eleven endpoints over three linked tables.
- **The bulk email queue** (`EmailQueue.dfy`, `EmailQueueLaws.dfy`, `EmailQueueEffects.dfy`, `MailRoom.dfy`): admin endpoints
  interleaved with any number of dispatchers.
- **Effective-dated pay rates** (`RateTable.dfy`, `RateTableLaws.dfy`, `PayTable.dfy`): the rate rows against a simple history
  of each tier's pay.
- **Wallets** (`Wallet.dfy`, `WalletLaws.dfy`, `WalletBook.dfy`): adjustments, currency changes and payroll pushes against the
  ledger.
- **Chat counters** (`Chat.dfy`, `ChatLaws.dfy`, `ChatDesk.dfy`) and the **session-cap evaluator** (`Capacity.dfy`,
  `CapacityLaws.dfy`).

Where the source updates rows in place, there are two layers: a class whose methods loop and assign as the source does, each
proved equal to a step function on the table contents, and lemmas about those step functions and their runs. Some lemmas say
what each call accepts, writes and leaves alone, column by column, without the helpers the steps are built from; others what
whole runs keep. The lemmas are the properties; the methods are what connects them to imperative code. Run
`dafny verify dfyconfig.toml` to check everything.

## Where the code and its documentation differ

The model follows the code. For each difference a lemma says exactly when the documented promise holds, and another gives a
concrete case in which it fails.

- The limiter's docstring says “sliding window”. It is a fixed window started by the first hit, and up to 2·limit − 1 requests
  pass within one window length (`RateLimit.SlidingWindowOnlyUpToOne`, `RateLimit.RateBoundIsTight`).
- Retry-After can be up to half a second short, and for whole seconds one millisecond, because Redis rounds TTL to the nearest
  second (`RateLimit.RetryAfterSuffices`, `RateLimit.RetryAfterCanFallShort`).
- “Two claim shifts can never overlap on the same machine”: a staff update that sets a cancelled or rejected claim shift back
  to pending, without changing its times or machine, is not checked against the others
  (`RosterLaws.ClaimsDisjointThroughout`, `RosterLaws.PromiseCanBreak`).
- “A shift can be at most 24 hours long” is enforced on updates and requests, not on creation
  (`RosterLaws.LengthsProperThroughout`, `RosterEpisodes.OverlongShiftIsTaken`).
- “Making the operation idempotent”, of creating a shift: not for a shift created as cancelled
  (`RosterEpisodes.ResubmittingAddsNothing`, `RosterEpisodes.CancelledTwinsAdd`).
- Stopping an email job: an item that a dispatcher already holds goes back to pending if the provider refuses it
  (`EmailQueueLaws.CleanUnlessLate`, `EmailQueueLaws.LateRequeueHappens`).
- A wallet's balance and its ledger drift by a cent when an own-currency adjustment with a half cent to round takes the balance
  across zero, because the request's amount is not quantized before it is stored (`WalletLaws.LedgerBalancesThroughout`,
  `WalletLaws.HalfCentDrifts`).
- “Opening marks the worker's messages read”: not while the badge is zero and messages are left that a reply passed over; the
  next message of the worker puts it right (`ChatLaws.OpeningMarksAllIff`, `ChatLaws.AnsweredButUnread`).
- Normalising a connection identifier: not idempotent on a browser form wrapped in another
  (`ConnectionId.NormalisingIsFinalIff`, `ConnectionId.NestedFormUnwrapsOnce`).

## Assumptions

- Redis is reachable; INCR with EXPIRE NX is one atomic step; a key still answers at the millisecond of its deadline and is
  gone after it; TTL rounds to the nearest second. Requests arrive in time order, and all calls on one key have one limit and
  window, as every scope has one call site.
- `base64.b64decode` is CPython's non-strict decoder and `atob` the WHATWG algorithm. Payloads are ASCII; for other bytes
  `Text` gives one replacement character per byte and strict decoding fails. HMAC, Python's `int()` and JavaScript's `Number()`
  are arbitrary functions with the few facts named in `SessionCookie.Sound`; times are seconds as reals.
- Rows are addressed by index instead of UUID, and `first()` is the lowest index. Instants are integers in one time zone.
  Answers from other tables (is the worker approved, does the machine exist, is it visible or assignable, does anyone use the
  tier) are parameters, so the results hold for all of them.
- A dispatcher's transactions are atomic; any number of dispatchers interleave, crash, or outlive their claims. Which addresses
  are valid, blocked or equal up to case is given by arbitrary functions.
- Money is in cents. Columns with two decimals round half away from zero; `Decimal.quantize` rounds half to even unless told
  otherwise; currency codes are nonempty and upper-case; exchange rates are arbitrary. Capacity measurements are reals.

## Model

| member | source | states |
|---|---|---|
| RateLimit.RateBound | backend/core/rate_limit.py:80-97 | In every run on any keys, an interval no longer than the window, both ends included, wherever it starts, holds at most max(0, 2·limit − 1) admissions of one key |
| RateLimit.RateBoundIsTight | backend/core/rate_limit.py:80-97 | For every limit and window some run admits 2·limit − 1 requests within one window length, so the bound cannot be improved |
| RateLimit.SlidingWindowOnlyUpToOne | backend/core/rate_limit.py:1-1 | The “sliding window” of the module's docstring (at most `limit` in any window) holds over all runs if and only if limit ≤ 1; the code is a fixed window anchored at the first hit |
| RateLimit.NewLifetimeIsExact | backend/core/rate_limit.py:80-97 | A key without a live counter: its next lifetime admits exactly min(requests, limit) |
| RateLimit.LifetimeIsExact | backend/core/rate_limit.py:84-97 | While a counter lives, exactly the first limit − value further requests pass, and no request, admitted or refused, moves the end of the lifetime or depends on other keys |
| RateLimit.AtMostTwoLifetimes | backend/core/rate_limit.py:84-97 | An interval that ends at most a window later meets what is left of the live counter and one fresh limit, no more |
| RateLimit.RunKeepsTimed | backend/core/rate_limit.py:84-87 | Every counter in a reachable store is positive and has an expiry |
| RateLimit.RetryAfterSuffices | backend/core/rate_limit.py:89-96 | A refused caller alone on its key who waits Retry-After is admitted if and only if the remaining life is under a second or at least half a second past a whole one, so that TTL did not round it down |
| RateLimit.RetryAfterIsNear | backend/core/rate_limit.py:89-96 | Retry-After is at least one second, and otherwise within half a second of the life left, above and below |
| RateLimit.RetryAfterCanFallShort | backend/core/rate_limit.py:89-96 | A concrete refusal told to wait one second, refused again after it |
| RateLimit.Redis.Incr | backend/core/rate_limit.py:85-85 | INCR: an expired or missing counter restarts at 1 without expiry, a live one keeps its expiry |
| RateLimit.Redis.ExpireNx | backend/core/rate_limit.py:86-86 | EXPIRE NX sets an expiry only where there is none |
| RateLimit.Redis.CheckRateLimit | backend/core/rate_limit.py:64-97 | The INCR and EXPIRE NX pipeline and its verdict, as the pure step the laws above are about |
| RateLimit.Redis.CurrentRateCount | backend/core/rate_limit.py:47-58 | Reads the live count, 0 once expired, and changes nothing |
| OtpChallenge.RemainingIsExact | backend/routers/auth.py:502-528 | limit − count is exactly the number of further resends that any future of this window will see admitted |
| OtpChallenge.ExactRemainingIsUnique | backend/routers/auth.py:502-528 | No other figure would be exact |
| OtpChallenge.ScopesDoNotCollide | backend/core/rate_limit.py:39-44 | Starting over and resending never share a limiter key, whatever the two addresses and accounts are |
| OtpChallenge.KeyIsSharedIff | backend/core/rate_limit.py:39-44 | Within a scope that names an account, another address and account share the key if and only if the address has a colon or the account has one before its last character |
| OtpChallenge.RegisterChallenge | backend/routers/auth.py:502-534 | An accepted call reports an exact “resends remaining”, whether from the post-increment count or the read-only one; which counter is hit; when it is refused |
| OtpChallenge.LoginChallenge | backend/routers/auth.py:1544-1575 | The same for sign-in; only resends are counted, and an account without an address never is |
| Base64.EncodeThenPyDecode | backend/core/guacamole.py:40-40 | base64 decoding gives back every byte string that was encoded (RFC 4648 section 4) |
| Base64.TokenRoundTrip | backend/core/session_cookie.py:31-37 | For all bytes: URL-safe encode, strip the padding, put it back by either formula, decode by either runtime, and the bytes return (RFC 4648 sections 3.2 and 5) |
| Base64.PyDecodeText | backend/core/guacamole.py:39-40 | Python's quad automaton on alphabet text and its padding is the block decoding, and an error exactly when one letter is left over |
| Base64.AtobOfText | frontend/middleware.ts:41-43 | The browser decoder on the same input gives the same bytes and fails on the same lengths |
| Base64.PaddingFormulasAgree | frontend/middleware.ts:41-41 | `-len % 4` and `(4 - len % 4) % 4` agree for every length and complete the last quad |
| Base64.DecodersAgreeOnAlphabet | frontend/middleware.ts:39-49 | On every token over the URL-safe alphabet, of any length, backend and middleware decode to the same bytes or both refuse |
| Base64.AtobThenPython | backend/core/session_cookie.py:36-37 | Of what the middleware decodes from any token, the backend decodes the same bytes if and only if the number of spaces is a multiple of four, and nothing otherwise |
| Base64.PythonThenAtob | frontend/middleware.ts:39-49 | Of what the backend decodes from any token, the middleware decodes the same bytes if and only if the padded text, spaces and pads dropped, is in the alphabet |
| Base64.PythonNeedsWholeQuads | backend/core/session_cookie.py:37-37 | Python decodes no unpadded text that stops inside a quad |
| Base64.JunkIsSkippedByPythonOnly | backend/core/session_cookie.py:37-37 | A text only Python decodes: it skips characters outside the alphabet, which the browser refuses |
| Base64.SpacesAreForgivenByAtobOnly | frontend/middleware.ts:43-43 | Two letters and two spaces, which only the browser decodes: both drop the spaces, but Python still wants the padding |
| Base64.BitsOfSextets | backend/core/guacamole.py:118-120 | Regrouping octets to six-bit groups and back is the identity |
| Base64.ExampleFoob | backend/core/guacamole.py:118-120 | An example of RFC 4648 section 10, pinning the alphabet and the padding |
| Base64.ExampleUrlSafe | backend/core/session_cookie.py:31-31 | The two letters of RFC 4648 section 5 |
| TextCodec.StripIsExact | backend/core/guacamole.py:35-35 | strip takes the spaces off both ends, all of them and nothing else |
| ConnectionId.DecimalIsFixed | backend/core/guacamole.py:28-47 | A bare decimal identifier of any length is its own normal form: either it does not decode or the bytes hold no NUL |
| ConnectionId.DigitBitsHaveNoNul | backend/core/guacamole.py:40-41 | No base64 reading of digits holds a NUL byte |
| ConnectionId.BrowserFormDecodes | backend/core/guacamole.py:115-120 | The browser form of every trimmed ASCII identifier, for every data source, normalises to that identifier |
| ConnectionId.StoredFormsCollapse | backend/core/guacamole.py:28-47 | Both stored forms of a decimal identifier normalise to it; normalising is idempotent on them, and so is building the browser form, whatever the data sources |
| ConnectionId.StoredFormsSeparate | backend/core/guacamole.py:115-120 | Different decimal identifiers never share a stored form |
| ConnectionId.NormalFormIff | backend/core/guacamole.py:35-47 | A text is its own normal form if and only if it is trimmed and does not unwrap, that is, does not decode to bytes with the mark and something before the first NUL |
| ConnectionId.UnwrapsIff | backend/core/guacamole.py:38-44 | Byte by byte, when a text unwraps: ASCII, decodable, a NUL, c or C, NUL somewhere, and something not blank before the first NUL |
| ConnectionId.NormalisingIsFinalIff | backend/core/guacamole.py:35-47 | For every text, normalising is idempotent if and only if the normal form does not unwrap |
| ConnectionId.BrowserFormIsFinalIff | backend/core/guacamole.py:35-47 | For the browser form of a plain identifier and every data source: if and only if the identifier does not unwrap, that is, is its own normal form |
| ConnectionId.NestedFormUnwrapsOnce | backend/core/guacamole.py:41-44 | A family where it is not: a browser form inside another unwraps one layer at a time |
| Gateway.Client.CloseAndConfirm | backend/core/guacamole.py:322-365 | For every gateway behaviour: at most one removal, of exactly the machine's sessions in the first listing; closed or already_closed only on a last listing in which no row names the machine by either field; pending only when every listing showed one and the deadline passed; failed exactly when the gateway failed; the number of polls is bounded by the timeout |
| Gateway.FreeMeansSeenGone | backend/core/guacamole.py:325-328 | A machine is reported free if and only if some listing of the call showed none of its sessions |
| Gateway.MatchingIdsExact | backend/core/guacamole.py:332-337 | The sessions selected are exactly those whose id, in either field, normalises to the machine's |
| Gateway.EitherFormMatches | backend/core/guacamole.py:329-337 | Whichever form machine and session are stored in, a session matches if and only if it is the same decimal connection |
| Gateway.OlderFieldMatches | backend/core/guacamole.py:303-304 | A session whose identifier is missing or empty matches, to close and to kill, by its older field: if and only if it is the same decimal connection, in either form |
| Gateway.IdentifierDecides | backend/core/guacamole.py:336-336 | A nonempty identifier decides, whatever the older field says |
| Gateway.MatchesIffNames | backend/core/guacamole.py:335-336 | A row is the machine's if and only if the deciding field normalises to its id, a missing one reading as empty |
| Gateway.ShowsIff | backend/core/guacamole.py:352-360 | A listing shows the machine if and only if some row names it by the deciding field |
| Gateway.RemovedExactly | backend/core/guacamole.py:341-350 | The removal names exactly the sessions of the first listing whose row names the machine |
| Gateway.KillableIdsExact | backend/core/guacamole.py:299-308 | The sessions killed are exactly those with an owner whose row names the machine |
| Gateway.CloseIsKill | backend/core/guacamole.py:303-305 | Killing and closing select the same sessions if and only if the machine has an identifier or every listed session has one |
| Gateway.Client.KillActiveConnections | backend/core/guacamole.py:294-320 | A count above zero means one accepted removal of exactly the matching sessions of one listing; zero means none |
| Gateway.Client.ListActiveConnections | backend/core/guacamole.py:331-331 | One request; a listing or a failure, as the gateway decides |
| Gateway.Client.Remove | backend/core/guacamole.py:343-350 | One request; removed if the gateway accepts it |
| Gateway.Client.CollectIds | backend/core/guacamole.py:332-337 | The comprehension collects the matching ids in listing order |
| SessionLaws.SignThenVerify | backend/core/session_cookie.py:24-49 | For every ASCII uid, bars included, every role, lifetime and instant: verifying a minted token returns exactly the signed uid and role up to its expiry, and nothing after it |
| SessionLaws.SignThenMiddleware | frontend/middleware.ts:65-91 | The middleware accepts a minted token, with its role, if and only if the uid is nonempty and free of bars and the second of expiry has not passed |
| SessionLaws.BackendAcceptsIff | backend/core/session_cookie.py:34-49 | For every token, minted or not: verify_session returns uid and role if and only if the token is ASCII and decodes to that uid, role, a bar-free numeral and their HMAC under the backend's secret, the role is valid, and the numeral is not past |
| SessionLaws.MiddlewareAcceptsIff | frontend/middleware.ts:65-91 | For every token: the middleware returns a role if and only if the token decodes to a nonempty bar-free uid, the role, a bar-free numeral and their HMAC under its secret, the role is valid, and the numeral is not before the present second |
| SessionLaws.SecretsChosen | backend/core/session_cookie.py:15-21 | Each process takes the first secret that is set, and has none only in production |
| SessionLaws.SigningFailsIff | backend/core/session_cookie.py:24-31 | Minting fails exactly for an invalid role or without a secret |
| SessionLaws.NaturalIsTheNumeral | backend/core/session_cookie.py:27-28 | The expiry is written as its decimal numeral |
| SessionLaws.MiddlewareIsLaxer | frontend/middleware.ts:87-90 | What the backend accepts of minted tokens the middleware accepts with the same role; only the middleware accepts exactly within the second after expiry |
| SessionLaws.MiddlewareAcceptanceIsSound | backend/core/session_cookie.py:34-47 | For arbitrary tokens, minted or not: of what the middleware accepts, the backend accepts, with the same role, exactly what has a multiple of four spaces, decodes strictly, and names an expiry the backend reads and that has not passed |
| SessionLaws.SecretsAgree | backend/core/session_cookie.py:15-21 | Exactly which settings give both processes the same secret; the backend alone falls back on the mail provider's key, and the production flags are separate |
| SessionLaws.RSplitFields | backend/core/session_cookie.py:38-38 | rsplit with three cuts recovers the four fields whatever the uid contains |
| SessionLaws.SplitCount | frontend/middleware.ts:73-74 | split yields one part more than there are bars, so a uid with a bar never has four parts |
| SessionLaws.MintedTokenDecodes | backend/core/session_cookie.py:27-31 | Either decoder recovers the payload and signature behind a minted token |
| SessionCookie.SameSignature | frontend/middleware.ts:80-85 | The xor-and-or loop accepts if and only if the signatures are equal |
| SessionCookie.VerifySessionCookie | frontend/middleware.ts:65-91 | The middleware's verifier, branch by branch, as the pure function the laws are about |
| RosterLaws.WorkersCannotTouchApproved | backend/routers/shifts.py:111-130 | In every sequence of worker calls every approved shift keeps hours, machine, status and approval, and no shift becomes approved |
| RosterLaws.WorkerStepKeepsApproved | backend/routers/shifts.py:466-557 | The same for each of the eleven calls |
| RosterLaws.BadgesAreExact | backend/routers/shifts.py:193-204 | In every reachable state both flagged_shift_ids lists are free of duplicates and name exactly the shifts of the caller's pending requests on live shifts, and of the caller's open reports |
| RosterLaws.RunKeepsOnePending | backend/routers/shifts.py:373-392 | In every run each shift has at most one pending change request and at most one pending or accepted absence report |
| RosterLaws.StepKeepsOnePendingRequest | backend/routers/shifts.py:373-392 | Each call keeps at most one pending request per shift: sending again amends |
| RosterLaws.StepKeepsOneOpenReport | backend/routers/absence_reports.py:142-159 | Each call keeps at most one open report per shift |
| RosterLaws.FlaggedByRequestsExact | backend/routers/shifts.py:198-204 | The request badge lists each flagged shift once and no other |
| RosterLaws.FlaggedByReportsExact | backend/routers/absence_reports.py:96-111 | The absence badge lists each flagged shift once and no other |
| RosterLaws.DecisionsAreFinal | backend/routers/absence_reports.py:304-327 | Once a change request or an absence report has left pending, no later call of any run changes anything in it |
| RosterLaws.StepKeepsDecided | backend/routers/shifts.py:223-252 | The same for each call, by workers and by staff |
| RosterLaws.RunKeepsReportsWellFormed | backend/routers/absence_reports.py:189-265 | In every run each report's end stays after its start, its attachments distinct and at most three, its reason at least twenty characters |
| RosterLaws.WithoutExact | backend/routers/absence_reports.py:281-285 | Removing an attachment removes that path and no other |
| RosterLaws.LengthsProperThroughout | backend/routers/shifts.py:104-118 | 0 < end − start ≤ 24 h for every shift and pending edit all through a run if and only if no creation of another length is made that is allowed, has no live twin and passes the claim check; lengths are not checked there |
| RosterLaws.CreationInserts | backend/routers/shifts.py:412-463 | That condition holds exactly when the call adds a row of such a length; any row added has the hours sent |
| RosterLaws.StepKeepsLengths | backend/routers/shifts.py:359-394 | Each call keeps the bound unless it is such a creation; amending between edit and delete and approving cannot spoil it |
| RosterLaws.ClaimsDisjointThroughout | backend/services/claim_shifts.py:3-8 | “Two claim shifts can never overlap on the same machine” holds all through a run if and only if no update revives a cancelled or rejected claim shift to pending on a slot that is taken |
| RosterLaws.StepKeepsClaimsDisjoint | backend/services/claim_shifts.py:35-52 | Each call keeps claim shifts disjoint exactly when it is not such a revival |
| RosterLaws.PromiseCanBreak | backend/routers/shifts.py:466-528 | Four staff calls that end with two claim shifts on one machine at one time |
| RosterLaws.OneHolderAtATime | backend/services/claim_shifts.py:87-98 | While the promise holds, at most one approved claim shift holds a machine at any instant |
| RosterEpisodes.ApprovalGrantsTheLatestAsk | backend/routers/shifts.py:255-308 | Whatever was asked before, approving gives exactly the latest ask to that shift and to no other, closes the request, and a second review is refused |
| RosterEpisodes.RefusalAndWithdrawalUndo | backend/routers/shifts.py:207-229 | A request rejected or withdrawn leaves every shift as before it was sent and no request open |
| RosterEpisodes.AskingKeepsOneRequest | backend/routers/shifts.py:336-395 | Sending opens a request or amends the open one to what was asked last; nothing else changes |
| RosterEpisodes.ResubmittingAddsNothing | backend/routers/shifts.py:434-447 | Creating the same shift twice returns the same row and adds nothing, if and only if it is not a staff creation of a cancelled shift that has no live twin |
| RosterEpisodes.CancelledTwinsAdd | backend/routers/shifts.py:434-447 | A shift created as cancelled twice leaves two rows |
| RosterEpisodes.OverlongShiftIsTaken | backend/routers/shifts.py:412-463 | A worker's shift of a day and a second is accepted |
| RosterEpisodes.CreationIsWhatWasSent | backend/routers/shifts.py:412-463 | Creation answers with a row of the worker and hours sent, adds at most that row, and a worker's own is pending |
| Schedule.Database.CreateShift | backend/routers/shifts.py:412-463 | create_shift in place, with its approval, twin and claim checks in order, equal to the step the laws are about |
| Schedule.Database.CheckNewTimes | backend/routers/shifts.py:111-130 | _check_new_times accepts exactly the allowed windows |
| Schedule.Database.UpdateShift | backend/routers/shifts.py:466-528 | update_shift in place: null columns, claim check and assignability included, equal to the step the laws are about |
| Schedule.Database.DeleteShift | backend/routers/shifts.py:531-557 | delete_shift in place: cancelling, idempotent, equal to the step the laws are about |
| Schedule.Database.SendChangeRequest | backend/routers/shifts.py:336-395 | send_change_request in place: opens or amends, equal to the step the laws are about |
| Schedule.Database.WithdrawChangeRequest | backend/routers/shifts.py:207-229 | withdraw_change_request in place, equal to the step the laws are about |
| Schedule.Database.ReviewChangeRequest | backend/routers/shifts.py:232-308 | review_change_request in place; a refused review of a cancelled shift still closes the request, equal to the step the laws are about |
| Schedule.Database.ChangeRequestSummary | backend/routers/shifts.py:193-204 | The loop builds the request badge |
| RosterEffects.UpdateIsWhatWasSent | backend/routers/shifts.py:466-528 | An accepted update gives each column the value sent, clears what was sent as null where that is allowed, keeps what was left out, the worker, the kind, every other row and table; a worker's only moves its own pending future shift |
| RosterEffects.StaffUpdateIsAcceptedIff | backend/routers/shifts.py:486-520 | Exactly when a staff update that leaves the times alone is accepted |
| RosterEffects.MoveIsAcceptedIff | backend/routers/shifts.py:111-130 | Exactly when an update that moves a shift is accepted, by staff or by its worker |
| RosterEffects.LastWriteDecides | backend/routers/shifts.py:466-557 | In every run a shift has exactly the status that the last accepted call to write it wrote, so it is approved exactly when that call approved it |
| RosterEffects.CreateIsWhatWasSent | backend/routers/shifts.py:412-463 | When a creation is accepted, and every column of the row it stores |
| RosterEffects.DeleteIsExact | backend/routers/shifts.py:531-557 | When a deletion is accepted; it cancels that shift and changes nothing else |
| RosterEffects.AskIsAcceptedIff | backend/routers/shifts.py:344-371 | Exactly when a change request is taken |
| RosterEffects.AskIsStored | backend/routers/shifts.py:373-392 | What it stores: the ask, reason and time, and the worker and the old hours of the first sending |
| RosterEffects.WithdrawIsExact | backend/routers/shifts.py:207-229 | When a withdrawal is accepted; it cancels that request and changes nothing else |
| RosterEffects.ReviewIsAcceptedIff | backend/routers/shifts.py:232-274 | Exactly when a review is accepted; a refused one changes nothing but closes the request of a cancelled shift |
| RosterEffects.ReviewIsExact | backend/routers/shifts.py:265-288 | What a review writes on request and shift, column by column |
| RosterEffects.FilingIsExact | backend/routers/absence_reports.py:123-172 | When an absence report is taken, and what is stored |
| RosterEffects.AmendingIsExact | backend/routers/absence_reports.py:175-219 | Only its author amends a pending report, and only what was sent changes |
| RosterEffects.AttachingIsExact | backend/routers/absence_reports.py:222-265 | When a file is accepted; it is appended once |
| RosterEffects.DetachingIsExact | backend/routers/absence_reports.py:268-293 | When a removal is accepted; that file goes and no other |
| RosterEffects.DecisionIsExact | backend/routers/absence_reports.py:296-349 | When a decision is accepted, what it writes, and that accepting with cancellation cancels the linked shift and no other |
| RosterEffects.ClaimIsAllowedIff | backend/services/claim_shifts.py:35-84 | When a machine may be booked: named, known, visible, and every other pending or approved claim on it ends before the start or begins after the end |
| RosterEffects.OverlapIsASharedInstant | backend/services/claim_shifts.py:43-49 | Two windows overlap if and only if they share an instant |
| Schedule.Database.FindTwin | backend/routers/shifts.py:434-447 | The search finds the first live shift of that worker and those hours |
| Schedule.Database.ValidateClaim | backend/services/claim_shifts.py:35-84 | validate_claim_shift, with its search for an overlapping claim shift |
| Schedule.Database.FindPending | backend/routers/shifts.py:374-378 | The search finds the shift's pending request |
| Schedule.Database.AlreadyReported | backend/routers/absence_reports.py:143-149 | The search finds whether the shift has an open report |
| Schedule.Database.FileAbsence | backend/routers/absence_reports.py:123-172 | create_absence_report in place, equal to the step the laws are about |
| Schedule.Database.AmendAbsence | backend/routers/absence_reports.py:175-219 | amend_absence_report in place, equal to the step the laws are about |
| Schedule.Database.AddAttachment | backend/routers/absence_reports.py:222-265 | add_absence_attachment in place, equal to the step the laws are about |
| Schedule.Database.RemoveAttachment | backend/routers/absence_reports.py:268-293 | remove_absence_attachment in place, by its filtering loop, equal to the step the laws are about |
| Schedule.Database.ReviewAbsence | backend/routers/absence_reports.py:296-349 | review_absence_report in place, cancelling the linked shift when asked, equal to the step the laws are about |
| Schedule.Database.AbsenceSummary | backend/routers/absence_reports.py:96-111 | The loop builds the absence badge |
| EmailQueueLaws.BroadcastExact | backend/routers/communications.py:307-340 | A broadcast adds one job whose pending items go to eligible recipients only (selected workers with a valid address, and typed addresses), with addresses distinct up to letter case, and cover every eligible address |
| EmailQueueLaws.BroadcastStaysUnique | backend/routers/communications.py:307-340 | Through every later run the job's items are those it was built with, and each is the first with its address, so the resend laws apply to each |
| EmailQueueLaws.PayslipsExact | backend/routers/communications.py:191-246 | A payslip job's items have distinct workers and are exactly the known workers of the summaries, not emailed before, with a valid address |
| EmailQueueLaws.QueueConserved | backend/routers/communications.py:111-138 | In every interleaving of admin and dispatcher steps, reported sent + failed + skipped + pending is the job's total, and finished_at is null if and only if it is queued or running |
| EmailQueueLaws.TalliesPartition | backend/routers/communications.py:111-138 | The five item counts partition the items of a job |
| EmailQueueLaws.StepKeepsConsistent | backend/routers/communications.py:398-464 | Each step keeps items belonging to jobs, item counts equal to totals, and finished_at |
| EmailQueueLaws.CleanUnlessLate | backend/routers/communications.py:433-464 | Cancelled jobs have no pending or claimed item all through a run if and only if no dispatcher settles, as refused with attempts to spare, an item it held when the job was cancelled |
| EmailQueueLaws.LateRequeueHappens | backend/services/email_dispatch.py:146-201 | Such a run: the item is pending again in a cancelled job |
| EmailQueueLaws.QuietCancelsStayClean | backend/routers/communications.py:433-464 | Cancelling only when nothing of the job is being sent keeps every cancelled job clean, whatever the dispatchers do |
| EmailQueueLaws.AdminKeepsSent | backend/routers/communications.py:409-455 | No admin call changes an item that was sent |
| EmailQueueEffects.RetryIsExact | backend/routers/communications.py:405-425 | A retry is refused if and only if the job is unknown or has no failed item; otherwise each failed item is pending, unattempted and unclaimed, the job queued and unfinished, and nothing else changed |
| EmailQueueEffects.RetryRequeuesTheFailed | backend/routers/communications.py:409-420 | After it no item of the job is failed, pending has grown by the former failed count, and the other counts are as before |
| EmailQueueEffects.RetriedIsClaimable | backend/services/email_dispatch.py:46-79 | A dispatcher can claim any retried item, for its first attempt |
| EmailQueueEffects.CancelIsExact | backend/routers/communications.py:440-459 | A cancellation is refused if and only if the job is unknown or completed; otherwise its pending and claimed items are skipped and nothing else changed |
| EmailQueueEffects.CancelSkipsTheRest | backend/routers/communications.py:433-464 | Skipped grows by the pending and claimed counts; sent and failed stay |
| EmailQueueEffects.ResendIsAcceptedIff | backend/routers/communications.py:585-615 | Exactly when a failure is accepted for resending |
| EmailQueueEffects.BulkResendIsExact | backend/routers/communications.py:617-643 | What resending a job's failure does to item, job row and log |
| EmailQueueEffects.DirectResendIsExact | backend/routers/communications.py:653-679 | What resending a direct message does: the failure goes and the new attempt is logged as it went |
| EmailQueueEffects.DeletionIsExact | backend/routers/communications.py:682-695 | When a failure may be deleted; nothing else changes |
| EmailQueueEffects.TallyIsTheNumber | backend/routers/communications.py:111-138 | Each reported count is the number of the job's items in that status |
| EmailQueueEffects.TypedExactly | backend/routers/communications.py:268-276 | The typed addresses are refused if and only if one that is not blank is blocked, and otherwise are the trimmed nonblank ones |
| EmailQueueEffects.TypedEntryByEntry | backend/routers/communications.py:268-276 | Entry by entry and in order |
| EmailQueueEffects.BroadcastRefusedIff | backend/routers/communications.py:258-335 | A broadcast is refused if and only if title or message is blank, an address is blocked, or nobody is eligible |
| EmailQueueEffects.TypedYieldsToWorkers | backend/routers/communications.py:311-331 | A typed address that is a selected worker's goes to the worker's item, not to one of its own |
| EmailQueueEffects.BroadcastJobIsExact | backend/routers/communications.py:337-339 | Its job is queued, its total the number of its items, its skipped figure the number of selected workers without a valid address |
| EmailQueueEffects.ClaimIsExact | backend/services/email_dispatch.py:46-79 | A claim marks the chosen items, each with one more attempt |
| EmailQueueEffects.ReapIsExact | backend/services/email_dispatch.py:82-105 | Stale claims go back, or are given up after three attempts |
| EmailQueueEffects.SettleIsExact | backend/services/email_dispatch.py:138-201 | What each outcome writes over the item and to the log |
| EmailQueueEffects.ReleaseAndCrashAreExact | backend/services/email_dispatch.py:269-316 | A released item goes back if still claimed; a dead dispatcher leaves it claimed |
| EmailQueueEffects.StartAndRecountAreExact | backend/services/email_dispatch.py:248-266 | Recounting stores the true counts and completes the job if and only if nothing is pending or claimed |
| EmailQueueLaws.SentIsFinal | backend/routers/communications.py:630-651 | A sent item that no dispatcher still holds is never changed by any run, so never sent again |
| EmailQueueLaws.ResendsQueueOnce | backend/routers/communications.py:585-651 | Resending any list of failures in any order queues an item at most once, and does if and only if it was settled unsent, is the first of its job with its address, and one of the failures is its own |
| EmailQueueLaws.ResendReachesIff | backend/routers/communications.py:605-635 | Resending a failure of a settled, unsent item queues that item if and only if it is the first of its job with its address |
| EmailQueueLaws.FailureConsumedOnce | backend/routers/communications.py:585-651 | Each failed log entry of an item is consumed exactly once however often it is resent |
| EmailQueueLaws.SharedAddressIsStuck | backend/routers/communications.py:605-610 | A later item with the same address can never be resent |
| MailRoom.Database.JobResponse | backend/routers/communications.py:111-138 | The counters reported are the item counts, and add up to the total in a consistent state |
| MailRoom.Database.ReadExtra | backend/routers/communications.py:268-276 | The loop keeps the typed addresses, trimmed, and stops at a blocked one |
| MailRoom.Database.Broadcast | backend/routers/communications.py:258-345 | broadcast in place, by its `seen` loops, equal to the function the laws are about |
| MailRoom.Database.PickPayslips | backend/routers/communications.py:191-232 | The loop over summaries with its `seen` set picks exactly the eligible workers, and queued and skipped together are the known workers of the summaries |
| MailRoom.Database.SendPayslips | backend/routers/communications.py:141-255 | send_payslips in place: a job with one pending item each and the other known workers counted as skipped, or an error when nobody is left |
| MailRoom.Database.FindItem | backend/routers/communications.py:605-610 | The search finds the first item of the job with the address |
| MailRoom.Database.Retry | backend/routers/communications.py:398-430 | retry in place: every failed item pending again, the job queued |
| MailRoom.Database.Cancel | backend/routers/communications.py:433-464 | cancel in place: outstanding items skipped, the job cancelled |
| MailRoom.Database.Resend | backend/routers/communications.py:585-679 | resend_failed_email in place, for bulk and direct messages |
| MailRoom.Database.DeleteFailed | backend/routers/communications.py:682-695 | delete_failed_email in place |
| RateTableLaws.RowsRefineHistory | backend/routers/payment_tiers.py:84-120 | After any run of tier create, update and delete with non-decreasing days and renames to names without rows: no two rows of a tier cover a day, at most one is open, and on every day the row in force is exactly what the tier's history says, which is read from what each call sent: the rate of the last sync on or before it, none after a deletion until the next sync |
| RateTableLaws.StepIsFaithful | backend/routers/payment_tiers.py:143-242 | Each call keeps that refinement, for all tiers at once |
| RateTableLaws.UpdateSetsTheRate | backend/routers/payment_tiers.py:217-238 | After an accepted update that leaves an active worker tier, exactly one row is in force on each day from today on, with the hourly figure of the tier's rate, unit and currency |
| RateTableLaws.UpdateIsWhatWasSent | backend/routers/payment_tiers.py:179-219 | An update is accepted if and only if the tier is known, nothing is null, the name free, a rate sent positive, and the scope not in use otherwise; each column is then the value sent, or the old one |
| RateTableLaws.UpdateRenamesRows | backend/routers/payment_tiers.py:221-228 | A rename carries every row of the old name, and only those |
| RateTableLaws.CreateIsWhatWasSent | backend/routers/payment_tiers.py:143-176 | When a creation is accepted, and the tier it stores |
| RateTableLaws.DeleteIsExact | backend/routers/payment_tiers.py:363-387 | A deletion removes the tier, ends its open rows today, and changes nothing else |
| RateTableLaws.TierNamesStayUnique | backend/routers/payment_tiers.py:154-156 | In every run the names of the tiers are different |
| RateTableLaws.SyncIsFaithful | backend/routers/payment_tiers.py:84-120 | A sync makes the rows mean: from today on, the new hourly rate; before today, as before |
| RateTableLaws.CloseIsFaithful | backend/routers/payment_tiers.py:363-387 | Deleting a tier ends its rate today |
| RateTableLaws.RenameIsFaithful | backend/routers/payment_tiers.py:219-228 | A rename to a name without rows carries the history over and leaves the old name none |
| RateTableLaws.RenameOntoRows | backend/routers/payment_tiers.py:223-228 | Onto a name that has rows, days stay singly covered if and only if no day was covered under both names |
| RateTableLaws.OtherTiersKept | backend/routers/payment_tiers.py:88-95 | A change to one tier's rows changes no other tier's history |
| RateTableLaws.EntryKeepsChainIff | backend/routers/rates.py:71-96 | A new entry, with or without an end, keeps its owner's rates disjoint with at most one open, if and only if its window keeps apart from every entry that is not closed by it |
| RateTableLaws.EntryIsWhatWasSent | backend/routers/rates.py:56-99 | When an entry is accepted; it is stored as sent, the owner's open entries that began earlier end on the day it begins, and nothing else changes |
| RateTableLaws.HourlyIsNearest | backend/models/payment_tier.py:45-56 | The hourly figure is the nearest cent of the rate divided by 8, 40 or 160 hours, a tie going to the even one |
| RateTableLaws.HourlyIsMonotone | backend/models/payment_tier.py:45-56 | A higher rate never becomes a lower hourly figure |
| PayTable.Database.SyncRateTable | backend/routers/payment_tiers.py:84-120 | _sync_rate_table in place, with its early return, equal to the step the laws are about |
| PayTable.Database.CreateTier | backend/routers/payment_tiers.py:143-176 | create_payment_tier in place, equal to the step the laws are about |
| PayTable.Database.UpdateTier | backend/routers/payment_tiers.py:179-242 | update_payment_tier in place, rename loop and sync included, equal to the step the laws are about |
| PayTable.Database.RenameRows | backend/routers/payment_tiers.py:223-228 | The rename loop rewrites every row of the old name, and only those |
| PayTable.Database.DeleteTier | backend/routers/payment_tiers.py:363-387 | delete_payment_tier in place: open tier rows closed today, equal to the step the laws are about |
| PayTable.Database.CreateRate | backend/routers/rates.py:56-99 | create_rate in place: earlier open entries of the owner closed, the new one added, equal to the step the laws are about |
| WalletLaws.LedgerBalancesThroughout | backend/routers/wallets.py:292-342 | In every currency the worker's transactions add up to what the wallet holds, all through a run, if and only if no adjustment with half a cent to round takes the balance across zero |
| WalletLaws.StepKeepsBooks | backend/routers/wallets.py:308-342 | Each call keeps balance and ledger equal exactly under that condition on the call; conversions and payroll always do |
| WalletLaws.WholeCentsAreClean | backend/routers/wallets.py:313-325 | Whole-cent amounts and all converted amounts meet the condition |
| WalletLaws.RoundingInStep | backend/models/wallet.py:28-66 | Rounding the stored balance and the stored amount to cents agree if and only if half a cent does not move the balance across zero |
| WalletLaws.HalfCentDrifts | backend/routers/wallets.py:336-336 | Two cents, then minus half a cent: the balance stays 2, the ledger says 1 |
| WalletLaws.CleanRunBalances | backend/routers/wallets.py:36-52 | In such a run, when a transaction is written all earlier ones of the worker in other currencies add up to zero |
| WalletLaws.EarlierEpochsCancel | backend/routers/wallets.py:36-52 | Where a worker's ledger changes currency, everything before it cancels out, in every currency: each earlier currency epoch sums to zero |
| WalletLaws.AdjustmentIsWorthItsAmount | backend/routers/wallets.py:311-342 | An adjustment posts the nearest cent of its worth in the wallet's currency, signed by its kind, and touches no other wallet |
| WalletLaws.CreditIsWorthTheNet | backend/services/payroll_engine.py:639-662 | A payroll credit leaves the wallet in the payslip's currency, worth the net on top of the old balance to the nearest cent, exact when nothing is converted |
| WalletLaws.NobodyPaidTwice | backend/services/payroll_engine.py:619-629 | In every run a worker is credited at most once for a period |
| WalletLaws.PushIsIdempotent | backend/services/payroll_engine.py:595-604 | Pushing a period again, with whatever rates there are by then, credits only workers the first push named as lacking a rate, touches no other account, and changes nothing if and only if no unpaid worker with something to pay has a rate now; with the same rates it never does |
| WalletLaws.PushPaysExactly | backend/services/payroll_engine.py:616-683 | A listed worker is paid afterwards if and only if paid before or with something to pay and a rate, and named if and only if unpaid, with something to pay and no rate |
| WalletLaws.PushAccountsForAll | backend/services/payroll_engine.py:616-683 | Every summary is counted as credited or skipped, and every worker with something to pay is paid or named as lacking a rate |
| WalletLaws.RosterShowsTheWorkersCurrency | backend/routers/wallets.py:55-77 | An administrator's listing shows the currency the worker's own view shows, and opening a wallet moves no money |
| WalletLaws.OpeningIsExact | backend/routers/wallets.py:36-52 | Opening a wallet moves no money; an empty or new one takes the worker's currency, another keeps its own |
| WalletLaws.AdjustmentIsAcceptedIff | backend/routers/wallets.py:299-321 | Exactly when an adjustment is accepted; a refused one moves nothing, and has opened the wallet if only the rate was missing |
| WalletLaws.CreditIsWritten | backend/services/payroll_engine.py:650-660 | The ledger entries of a credit: the net for the period, preceded by both legs if a balance was converted |
| WalletLaws.TiesAreRounded | backend/routers/wallets.py:322-322 | Half a cent is converted to the even cent, and stored away from zero |
| WalletBook.Database.GetOrCreate | backend/routers/wallets.py:36-52 | _get_or_create_wallet in place, equal to the step the laws are about |
| WalletBook.Database.CreateAdjustment | backend/routers/wallets.py:292-342 | create_adjustment in place; a missing rate is an error after the wallet was created or relabelled, equal to the step the laws are about |
| WalletBook.Database.MoveWalletToCurrency | backend/services/payroll_engine.py:686-728 | _move_wallet_to_currency in place, with both ledger legs, equal to the step the laws are about |
| WalletBook.Database.CreditOne | backend/services/payroll_engine.py:617-662 | One worker of the push in place, equal to the step the laws are about |
| WalletBook.Database.PushPeriodToWallets | backend/services/payroll_engine.py:595-683 | push_period_to_wallets in place, by its loop over summaries, equal to the step the laws are about |
| ChatLaws.BadgesFollowTheMessages | backend/routers/chat.py:140-171 | In every run unread_for_user is the number of admin messages with no read_at, and unread_for_admin never exceeds the unread user messages |
| ChatLaws.AdminBadgeIsExact | backend/routers/chat.py:158-164 | unread_for_admin is the number of user messages since the last admin reply or open, or since the beginning |
| ChatLaws.BadgeIsUnreadThroughout | backend/routers/chat.py:159-164 | It is the number of unread user messages all through a run if and only if nobody replies while the badge counts some |
| ChatLaws.AnsweredButUnread | backend/routers/chat.py:302-310 | Ask, be answered, be opened: the question still has no read_at |
| ChatLaws.OpeningMarksAllIff | backend/routers/chat.py:285-312 | After every run, opening leaves no user message unread if and only if the badge is above zero or nothing is left that a reply passed over |
| ChatLaws.OpeningMarksAllByHistory | backend/routers/chat.py:285-312 | By history alone: if and only if a user message came since the last reply or opening, or nothing is left that a reply passed over |
| ChatLaws.EveryOpeningMarksAll | backend/routers/chat.py:302-310 | All openings of a run mark everything read if and only if each meets that condition |
| ChatLaws.BadgeIsUnreadIff | backend/routers/chat.py:159-164 | After every run the badge is the number of unread user messages if and only if no reply passed over waiting messages since the last opening that cleared |
| ChatLaws.PassedOverStaysUnread | backend/routers/chat.py:302-310 | While the badge is zero and the worker sends nothing, no sequence of reading, replying, opening or archiving marks a user message read |
| ChatLaws.ArchivedIsTheLastWord | backend/routers/chat.py:346-359 | A conversation is archived if and only if the last of its messages and archivings archived it; any message brings it back |
| ChatLaws.MessagesAreKept | backend/routers/chat.py:192-200 | No step of any run loses or rewrites a message, or changes a read_at once set |
| ChatLaws.ReadingReadsAll | backend/routers/chat.py:176-202 | In every reachable state reading returns every message with no admin message left unread, and clears the badge |
| ChatLaws.SendIsExact | backend/routers/chat.py:215-246 | When a message is taken; it is stored trimmed and unread at the end, counted, and brings the conversation back |
| ChatLaws.ReplyIsExact | backend/routers/chat.py:315-343 | When a reply is taken, and the same of it, clearing the administrators' badge |
| ChatLaws.OpeningIsExact | backend/routers/chat.py:285-312 | Opening answers with the whole conversation as it then is, each message accounted for |
| ChatLaws.ReadingIsExact | backend/routers/chat.py:176-202 | The same of the worker's reading |
| ChatLaws.ArchivingIsExact | backend/routers/chat.py:346-359 | Archiving sets the flag and nothing else |
| ChatDesk.Conversation.Append | backend/routers/chat.py:140-171 | _append in place, equal to the step the laws are about |
| ChatDesk.Conversation.SendMessage | backend/routers/chat.py:215-257 | send_message in place, starting the thread if needed, equal to the step the laws are about |
| ChatDesk.Conversation.ReplyToThread | backend/routers/chat.py:315-343 | reply_to_thread in place, equal to the step the laws are about |
| ChatDesk.Conversation.MarkSide | backend/routers/chat.py:194-198 | The marking loop sets read_at on exactly the side's unread messages |
| ChatDesk.Conversation.MyMessages | backend/routers/chat.py:176-202 | my_messages in place, equal to the step the laws are about |
| ChatDesk.Conversation.ThreadMessages | backend/routers/chat.py:285-312 | thread_messages in place, equal to the step the laws are about |
| ChatDesk.Conversation.ArchiveThread | backend/routers/chat.py:346-359 | archive_thread in place, equal to the step the laws are about |
| Capacity.Evaluate | scripts/rdp_capacity.py:23-65 | Any malformed row is the error raised, wherever it stands; otherwise every stage is reported with its failed checks and the cap is that of the last stage of the longest all-passing prefix |
| Capacity.Assess | scripts/rdp_capacity.py:47-59 | The reasons are the failed checks in order, none if and only if the stage passes |
| Capacity.PassingPrefix | scripts/rdp_capacity.py:60-62 | The stages counted all pass and the next one, if any, does not |
| CapacityLaws.CapIsEarned | scripts/rdp_capacity.py:60-62 | A cap n is never zero and n ≤ c·(1 − reserve) < n + 1 for a measured c such that every stage up to c passed |
| CapacityLaws.CapIsBest | scripts/rdp_capacity.py:60-62 | No stage that passed together with all before it supports a higher cap |
| CapacityLaws.LaterStagesNeverMatter | scripts/rdp_capacity.py:60-62 | Valid stages after the first failure never change the cap |
| CapacityLaws.PassingStageNeverLowers | scripts/rdp_capacity.py:60-62 | A further passing stage on an all-passing run never lowers it |
| CapacityLaws.RelaxingNeverLowers | scripts/rdp_capacity.py:48-62 | Relaxing any limit or lowering the reserve never lowers it |
| CapacityLaws.MeasurementsAcceptedIff | scripts/rdp_capacity.py:29-46 | The rows are accepted if and only if each is well formed and measures more sessions than the one before |
| CapacityLaws.RowIsAcceptedIff | scripts/rdp_capacity.py:30-46 | Every rule of one row, as one condition |
| CapacityLaws.RowIsRead | scripts/rdp_capacity.py:30-44 | A row is read as it stands |
| CapacityLaws.StagePassesIff | scripts/rdp_capacity.py:48-58 | The nine checks of a stage, without quotients |

## Left out

- Redis being down: the cooldown, the skipped checks and the 503 answer.
- The account checks, mail sending and code issuing around the two resend challenges.
- The gateway's token cache and retries; a failed token request is one more failed answer.
- JWT, Fernet, SHA-256 and UTF-8 beyond ASCII.
- SessionLaws.MiddlewareAcceptanceIsSound: strict decoding is modelled as refusing every byte outside ASCII, because UTF-8 is not.
- ConnectionId.StoredFormsCollapse: for decimal identifiers; NormalFormIff and BrowserFormIsFinalIff say what holds of others.
- Notifications, audit records, and assigning or releasing machines after shift decisions; only their guards are modelled.
- Deleting rows of shifts, requests and reports: the source never does.
- EmailQueueLaws.BroadcastExact: address validity and folding are arbitrary functions, not the mail rules themselves.
- Payslip jobs with an override address, the recipient filter query, webhook updates and syncing of log entries.
- The dispatcher in imperative form: its transactions are steps on values, since what matters is how they interleave.
- RateTableLaws.RowsRefineHistory: not for renames onto names that have rows, where RenameOntoRows gives the exact condition, nor for runs that mix tier syncs with back-dated or future single entries.
- Moving workers between tiers, client tiers' billing, and recalculating summaries after a rate change.
- Column overflow of large amounts, and the text of ledger notes.
- Computing payroll itself: a push is given each worker's final net.
- Message previews, last-message times, alert emails and the thread list's order.
- Parsing of measurement files: a cell that is no plain count or finite number is None; and the floating-point rounding of the script.
- Role tables, exports, PDF and CSV rendering, and the user interface: no state worth a proof.
