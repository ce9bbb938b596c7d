/** Worker wallets and their ledger: backend/routers/wallets.py and the payroll push of
    backend/services/payroll_engine.py. Stored money is in cents, since the columns keep two
    decimals; an amount on its way there is a real number of cents. */
module Wallet {
  import opened Wrappers
  import opened TextCodec

  /** A currency code, upper-case and never empty. */
  type Code = c: string | c != "" witness "USD"

  datatype Account = Account(balance: int, currency: Code)

  datatype Kind = PayrollCredit | Adjustment | Payout

  datatype Tx = Tx(worker: nat, kind: Kind, amount: int, currency: Code, period: Option<nat>)

  datatype State = State(wallets: map<nat, Account>, txs: seq<Tx>)

  const EMPTY := State(map[], [])

  datatype Error = BadRequest | NotFound

  type Rates = (string, string) -> Option<real>

  /** Nearest integer, a tie going away from zero: what a two-decimal column stores, and
      ROUND_HALF_UP. */
  function HalfAway(x: real): int {
    if x >= 0.0 then (x + 0.5).Floor else -((0.5 - x).Floor)
  }

  /** Nearest integer, a tie going to the even one. */
  function HalfEven(x: real): int {
    var f := x.Floor;
    var rest := x - f as real;
    if rest < 0.5 || (rest == 0.5 && f % 2 == 0) then f else f + 1
  }

  function Exchanged(amount: real, rate: real): real {
    amount * rate
  }

  /** An amount at an exchange rate, quantized. */
  function Converted(amount: real, rate: real): int {
    HalfEven(Exchanged(amount, rate))
  }

  /** _get_or_create_wallet: an empty wallet adopts the worker's payout currency. */
  function GetOrCreate(s: State, w: nat, local: Code): State {
    if w !in s.wallets then s.(wallets := s.wallets[w := Account(0, local)])
    else if s.wallets[w].balance == 0 && s.wallets[w].currency != local then
      s.(wallets := s.wallets[w := s.wallets[w].(currency := local)])
    else s
  }

  /** The currency a listing shows for a stored wallet, _wallet_response. */
  function Display(a: Account, local: Code): Code {
    if a.balance != 0 then a.currency else local
  }

  /** Writes an adjustment of `amount` cents in the wallet's currency. */
  function Post(s: State, w: nat, amount: real): (State, Tx)
    requires w in s.wallets
  {
    var a := s.wallets[w];
    var tx := Tx(w, if amount > 0.0 then Adjustment else Payout, HalfAway(amount), a.currency, None);
    (State(s.wallets[w := a.(balance := HalfAway(a.balance as real + amount))], s.txs + [tx]), tx)
  }

  datatype Form = Form(worker: nat, known: bool, amount: real, currency: string, note: string, local: Code)

  /** Why a form is refused before any wallet is looked at. */
  function Refusal(f: Form): Option<Error> {
    if Strip(f.note) == "" || f.amount == 0.0 then Some(BadRequest)
    else if !f.known then Some(NotFound)
    else None
  }

  /** The cents to post in the wallet's currency; None if there is no exchange rate. */
  function Amount(f: Form, currency: Code, fx: Rates): Option<real> {
    if f.currency == "" || f.currency == currency then Some(f.amount)
    else match fx(f.currency, currency)
      case None => None
      case Some(rate) => Some(Converted(f.amount, rate) as real)
  }

  /** create_adjustment. A missing rate is an error after the wallet was created or relabelled. */
  function Adjust(s: State, f: Form, fx: Rates): (State, Result<Tx, Error>) {
    if Refusal(f).Some? then (s, Err(Refusal(f).value))
    else
      var s1 := GetOrCreate(s, f.worker, f.local);
      match Amount(f, s1.wallets[f.worker].currency, fx)
      case None => (s1, Err(BadRequest))
      case Some(amount) =>
        var (s2, tx) := Post(s1, f.worker, amount);
        (s2, Ok(tx))
  }

  // ---- payroll ---------------------------------------------------------------------

  /** _move_wallet_to_currency: a balance is converted, with both legs in the ledger. */
  function MoveTo(s: State, w: nat, target: Code, fx: Rates): Option<State>
    requires w in s.wallets
  {
    var a := s.wallets[w];
    if a.currency == target then Some(s)
    else if a.balance == 0 then Some(s.(wallets := s.wallets[w := a.(currency := target)]))
    else match fx(a.currency, target)
      case None => None
      case Some(rate) =>
        if rate <= 0.0 then None
        else
          var moved := HalfAway(Exchanged(a.balance as real, rate));
          Some(State(s.wallets[w := Account(moved, target)],
                     s.txs + [Tx(w, Adjustment, -a.balance, a.currency, None), Tx(w, Adjustment, moved, target, None)]))
  }

  predicate IsCredit(t: Tx, w: nat, period: nat) {
    t.worker == w && t.kind == PayrollCredit && t.period == Some(period)
  }

  predicate Paid(txs: seq<Tx>, w: nat, period: nat) {
    exists i :: 0 <= i < |txs| && IsCredit(txs[i], w, period)
  }

  /** A payslip's bottom line. */
  datatype Summary = Summary(worker: nat, net: int, currency: Code)

  datatype Outcome = Credited | Skipped | NoRate

  function Credit(s: State, period: nat, p: Summary, fx: Rates): (State, Outcome) {
    if p.net <= 0 || Paid(s.txs, p.worker, period) then (s, Skipped)
    else
      var ready := if p.worker !in s.wallets then Some(s.(wallets := s.wallets[p.worker := Account(0, p.currency)]))
                   else MoveTo(s, p.worker, p.currency, fx);
      match ready
      case None => (s, NoRate)
      case Some(s1) =>
        var tx := Tx(p.worker, PayrollCredit, p.net, p.currency, Some(period));
        (State(s1.wallets[p.worker := Account(s1.wallets[p.worker].balance + p.net, p.currency)], s1.txs + [tx]), Credited)
  }

  datatype Report = Report(credited: nat, skipped: nat, noRate: seq<nat>)

  function Noted(r: Report, p: Summary, o: Outcome): Report {
    match o
    case Credited => r.(credited := r.credited + 1)
    case Skipped => r.(skipped := r.skipped + 1)
    case NoRate => r.(skipped := r.skipped + 1, noRate := r.noRate + [p.worker])
  }

  /** push_period_to_wallets, for a period that may be paid. */
  function PushAll(s: State, period: nat, ps: seq<Summary>, fx: Rates): (State, Report) {
    if ps == [] then (s, Report(0, 0, []))
    else
      var (s1, r) := PushAll(s, period, ps[..|ps| - 1], fx);
      var (s2, o) := Credit(s1, period, ps[|ps| - 1], fx);
      (s2, Noted(r, ps[|ps| - 1], o))
  }

  function Push(s: State, period: nat, payable: bool, ps: seq<Summary>, fx: Rates): (State, Result<Report, Error>) {
    if !payable then (s, Err(BadRequest))
    else var (s1, r) := PushAll(s, period, ps, fx); (s1, Ok(r))
  }

  // ---- runs ------------------------------------------------------------------------

  datatype Event =
    | OnView(worker: nat, local: Code)
    | OnAdjust(form: Form, fx: Rates)
    | OnPush(period: nat, payable: bool, summaries: seq<Summary>, fx: Rates)

  function Step(s: State, e: Event): State {
    match e
    case OnView(w, local) => GetOrCreate(s, w, local)
    case OnAdjust(f, fx) => Adjust(s, f, fx).0
    case OnPush(period, payable, ps, fx) => Push(s, period, payable, ps, fx).0
  }

  function Run(s: State, es: seq<Event>): State {
    if es == [] then s else Step(Run(s, es[..|es| - 1]), es[|es| - 1])
  }
}
