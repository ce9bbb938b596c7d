/** What the ledger says about the balances, over whole runs. */
module WalletLaws {
  import opened Wrappers
  import opened TextCodec
  import opened Wallet

  /** The worker's transactions in one currency, added up. */
  function SumIn(txs: seq<Tx>, w: nat, c: Code): int {
    if txs == [] then 0
    else SumIn(txs[..|txs| - 1], w, c) + Part(txs[|txs| - 1], w, c)
  }

  function Part(t: Tx, w: nat, c: Code): int {
    if t.worker == w && t.currency == c then t.amount else 0
  }

  /** What the worker holds in one currency. */
  function Holding(s: State, w: nat, c: Code): int {
    if w in s.wallets && s.wallets[w].currency == c then s.wallets[w].balance else 0
  }

  /** In every currency, the ledger adds up to what the wallet holds. */
  ghost predicate Books(s: State) {
    forall w, c :: SumIn(s.txs, w, c) == Holding(s, w, c)
  }

  /** When a transaction was written, the worker's earlier ones in every other currency added
      up to zero. */
  ghost predicate OtherCurrenciesClosed(txs: seq<Tx>) {
    forall j, c: Code :: 0 <= j < |txs| && c != txs[j].currency ==> SumIn(txs[..j], txs[j].worker, c) == 0
  }

  lemma SumAdd(txs: seq<Tx>, t: Tx, w: nat, c: Code)
    ensures SumIn(txs + [t], w, c) == SumIn(txs, w, c) + Part(t, w, c)
  {
    assert (txs + [t])[..|txs|] == txs;
  }

  // ---- rounding --------------------------------------------------------------------

  predicate IsTie(x: real) {
    x - x.Floor as real == 0.5
  }

  /** Whether the column stores the balance and the transaction in step. */
  predicate InStep(balance: int, amount: real) {
    IsTie(amount) ==> (amount > 0.0 <==> balance as real + amount > 0.0)
  }

  lemma FloorIs(x: real, n: int)
    requires n as real <= x < n as real + 1.0
    ensures x.Floor == n
  {
  }

  lemma HalfAwayOf(x: real)
    ensures HalfAway(x) == if x - x.Floor as real < 0.5 || (IsTie(x) && x < 0.0) then x.Floor else x.Floor + 1
  {
    var f := x.Floor;
    if x >= 0.0 {
      FloorIs(x + 0.5, if x - f as real < 0.5 then f else f + 1);
    } else {
      FloorIs(0.5 - x, if x - f as real <= 0.5 then -f else -f - 1);
    }
  }

  /** Rounding the new balance and rounding the amount agree exactly when half a cent does not
      move the balance across zero. */
  lemma RoundingInStep(balance: int, amount: real)
    ensures HalfAway(balance as real + amount) == balance + HalfAway(amount) <==> InStep(balance, amount)
  {
    hide HalfAway;
    FloorIs(balance as real + amount, balance + amount.Floor);
    HalfAwayOf(amount);
    HalfAwayOf(balance as real + amount);
  }

  lemma WholeCents(balance: int, amount: int)
    ensures HalfAway(amount as real) == amount && InStep(balance, amount as real)
  {
    HalfAwayOf(amount as real);
  }

  // ---- one step --------------------------------------------------------------------

  lemma ViewKeepsBooks(s: State, w: nat, local: Code)
    requires Books(s)
    ensures Books(GetOrCreate(s, w, local))
  {
    var s' := GetOrCreate(s, w, local);
    forall v, c
      ensures SumIn(s'.txs, v, c) == Holding(s', v, c)
    {
      assert SumIn(s.txs, v, c) == Holding(s, v, c);
    }
  }

  lemma PostKeepsBooks(s: State, w: nat, amount: real)
    requires Books(s) && w in s.wallets
    ensures Books(Post(s, w, amount).0) <==> InStep(s.wallets[w].balance, amount)
  {
    hide HalfAway, InStep, SumIn;
    var (s', tx) := Post(s, w, amount);
    var a := s.wallets[w];
    RoundingInStep(a.balance, amount);
    SumAdd(s.txs, tx, w, a.currency);
    assert SumIn(s.txs, w, a.currency) == Holding(s, w, a.currency);
    if InStep(a.balance, amount) {
      forall v, c
        ensures SumIn(s'.txs, v, c) == Holding(s', v, c)
      {
        SumAdd(s.txs, tx, v, c);
        assert SumIn(s.txs, v, c) == Holding(s, v, c);
      }
    } else {
      assert SumIn(s'.txs, w, a.currency) != Holding(s', w, a.currency);
    }
  }

  lemma MoveKeepsBooks(s: State, w: nat, target: Code, fx: Rates)
    requires Books(s) && w in s.wallets && MoveTo(s, w, target, fx).Some?
    ensures Books(MoveTo(s, w, target, fx).value)
  {
    hide HalfAway, SumIn;
    var (a, s') := (s.wallets[w], MoveTo(s, w, target, fx).value);
    forall v, c
      ensures SumIn(s'.txs, v, c) == Holding(s', v, c)
    {
      assert SumIn(s.txs, v, c) == Holding(s, v, c);
      if a.currency != target && a.balance != 0 {
        var out := Tx(w, Adjustment, -a.balance, a.currency, None);
        var in_ := Tx(w, Adjustment, s'.wallets[w].balance, target, None);
        assert s'.txs == (s.txs + [out]) + [in_];
        SumAdd(s.txs, out, v, c);
        SumAdd(s.txs + [out], in_, v, c);
      }
    }
  }

  function Ready(s: State, p: Summary, fx: Rates): Option<State> {
    if p.worker !in s.wallets then Some(s.(wallets := s.wallets[p.worker := Account(0, p.currency)]))
    else MoveTo(s, p.worker, p.currency, fx)
  }

  lemma CreditKeepsBooks(s: State, period: nat, p: Summary, fx: Rates)
    requires Books(s)
    ensures Books(Credit(s, period, p, fx).0)
  {
    hide SumIn, MoveTo, Paid;
    var (s', o) := Credit(s, period, p, fx);
    if o.Credited? {
      var s1 := Ready(s, p, fx).value;
      if p.worker in s.wallets {
        MoveKeepsBooks(s, p.worker, p.currency, fx);
        MoveLands(s, p.worker, p.currency, fx);
      } else {
        ViewKeepsBooks(s, p.worker, p.currency);
      }
      var tx := Tx(p.worker, PayrollCredit, p.net, p.currency, Some(period));
      forall v, c
        ensures SumIn(s'.txs, v, c) == Holding(s', v, c)
      {
        SumAdd(s1.txs, tx, v, c);
        assert SumIn(s1.txs, v, c) == Holding(s1, v, c);
      }
    }
  }

  lemma MoveLands(s: State, w: nat, target: Code, fx: Rates)
    requires w in s.wallets && MoveTo(s, w, target, fx).Some?
    ensures w in MoveTo(s, w, target, fx).value.wallets && MoveTo(s, w, target, fx).value.wallets[w].currency == target
  {
  }

  lemma {:induction false} PushKeepsBooks(s: State, period: nat, ps: seq<Summary>, fx: Rates)
    requires Books(s)
    ensures Books(PushAll(s, period, ps, fx).0)
  {
    if ps != [] {
      PushKeepsBooks(s, period, ps[..|ps| - 1], fx);
      hide Books, Credit;
      CreditKeepsBooks(PushAll(s, period, ps[..|ps| - 1], fx).0, period, ps[|ps| - 1], fx);
    }
  }

  /** The amount an adjustment would post, if it posts one, keeps balance and ledger in step. */
  predicate Clean(s: State, e: Event) {
    e.OnAdjust? && Refusal(e.form).None? ==>
      var a := GetOrCreate(s, e.form.worker, e.form.local).wallets[e.form.worker];
      var amount := Amount(e.form, a.currency, e.fx);
      amount.Some? ==> InStep(a.balance, amount.value)
  }

  lemma StepKeepsBooks(s: State, e: Event)
    requires Books(s)
    ensures Books(Step(s, e)) <==> Clean(s, e)
  {
    hide Books, InStep, Post, PushAll, Refusal;
    match e {
      case OnView(w, local) => ViewKeepsBooks(s, w, local);
      case OnPush(period, _, ps, fx) => PushKeepsBooks(s, period, ps, fx);
      case OnAdjust(f, fx) =>
        if Refusal(f).None? {
          ViewKeepsBooks(s, f.worker, f.local);
          var s1 := GetOrCreate(s, f.worker, f.local);
          var amount := Amount(f, s1.wallets[f.worker].currency, fx);
          if amount.Some? {
            PostKeepsBooks(s1, f.worker, amount.value);
          }
        }
    }
  }

  // ---- whole runs --------------------------------------------------------------------

  /** The balance equals its ledger, currency by currency, all through a run exactly when no
      adjustment of the run takes the balance across zero with half a cent to round. */
  lemma LedgerBalancesThroughout(es: seq<Event>)
    ensures (forall k :: 0 <= k <= |es| ==> Books(Run(EMPTY, es[..k])))
            <==> (forall k :: 0 <= k < |es| ==> Clean(Run(EMPTY, es[..k]), es[k]))
  {
    if forall k :: 0 <= k < |es| ==> Clean(Run(EMPTY, es[..k]), es[k]) {
      forall k | 0 <= k <= |es|
        ensures Books(Run(EMPTY, es[..k]))
      {
        CleanRunBalances(es, k);
      }
    } else if forall k :: 0 <= k <= |es| ==> Books(Run(EMPTY, es[..k])) {
      hide Books, Clean, Step;
      forall k | 0 <= k < |es|
        ensures Clean(Run(EMPTY, es[..k]), es[k])
      {
        RunOneMore(es, k);
        StepKeepsBooks(Run(EMPTY, es[..k]), es[k]);
      }
    }
  }

  lemma RunOneMore(es: seq<Event>, k: nat)
    requires k < |es|
    ensures Run(EMPTY, es[..k + 1]) == Step(Run(EMPTY, es[..k]), es[k])
  {
    assert es[..k + 1][..k] == es[..k];
  }

  lemma {:induction false} CleanRunBalances(es: seq<Event>, k: nat)
    requires k <= |es| && forall i :: 0 <= i < k ==> Clean(Run(EMPTY, es[..i]), es[i])
    ensures Books(Run(EMPTY, es[..k])) && OtherCurrenciesClosed(Run(EMPTY, es[..k]).txs)
  {
    if k > 0 {
      CleanRunBalances(es, k - 1);
      RunOneMore(es, k - 1);
      hide Books, Clean, Step, OtherCurrenciesClosed;
      StepKeepsBooks(Run(EMPTY, es[..k - 1]), es[k - 1]);
      StepKeepsClosed(Run(EMPTY, es[..k - 1]), es[k - 1]);
    }
  }

  /** Whole cents are clean, and so is every amount that is converted first. */
  lemma WholeCentsAreClean(s: State, e: Event)
    requires e.OnAdjust? ==>
               || e.form.amount == e.form.amount.Floor as real
               || (e.form.currency != "" && e.form.currency != GetOrCreate(s, e.form.worker, e.form.local).wallets[e.form.worker].currency)
    ensures Clean(s, e)
  {
    hide InStep, Converted;
    if e.OnAdjust? && Refusal(e.form).None? {
      var a := GetOrCreate(s, e.form.worker, e.form.local).wallets[e.form.worker];
      var amount := Amount(e.form, a.currency, e.fx);
      if amount.Some? {
        WholeCents(a.balance, amount.value.Floor);
      }
    }
  }

  /** Taking half a cent from two cents: the ledger says one cent taken, the balance stays. */
  lemma HalfCentDrifts(fx: Rates)
    ensures var es := [OnAdjust(Form(0, true, 2.0, "", "x", "USD"), fx), OnAdjust(Form(0, true, -0.5, "", "x", "USD"), fx)];
            var s := Run(EMPTY, es);
            0 in s.wallets && s.wallets[0].balance == 2 && SumIn(s.txs, 0, "USD") == 1
  {
    var (f, g) := (Form(0, true, 2.0, "", "x", "USD"), Form(0, true, -0.5, "", "x", "USD"));
    var (d, e) := (OnAdjust(f, fx), OnAdjust(g, fx));
    assert Strip("x") == "x";
    var es := [d, e];
    RunOneMore(es, 0);
    RunOneMore(es, 1);
    assert es[..0] == [] && es[..2] == es;
    var s1 := Run(EMPTY, es[..1]);
    assert HalfAway(2.0) == 2 && HalfAway(1.5) == 2 && HalfAway(-0.5) == -1;
    hide HalfAway, Strip;
    var t := Tx(0, Adjustment, 2, "USD", None);
    assert s1 == Step(EMPTY, d);
    assert s1 == State(map[0 := Account(2, "USD")], [] + [t]);
    SumAdd([], t, 0, "USD");
    assert Run(EMPTY, es) == Step(s1, e);
    SumAdd(s1.txs, Tx(0, Payout, -1, "USD", None), 0, "USD");
  }

  // ---- what an amount is worth -------------------------------------------------------

  lemma HalfAwayIsNearest(x: real)
    ensures -0.5 <= HalfAway(x) as real - x <= 0.5
  {
    hide HalfAway;
    HalfAwayOf(x);
  }

  lemma ConvertedIsNearest(amount: real, rate: real)
    ensures -0.5 <= Converted(amount, rate) as real - Exchanged(amount, rate) <= 0.5
  {
  }

  /** What an amount of one currency is worth in another, before rounding. */
  function Worth(amount: real, from: string, to: string, fx: Rates): real {
    if from == "" || from == to then amount
    else match fx(from, to) case None => 0.0 case Some(rate) => Exchanged(amount, rate)
  }

  /** An adjustment posts the nearest cent of what it is worth in the wallet's currency, and
      moves no other wallet. */
  lemma AdjustmentIsWorthItsAmount(s: State, f: Form, fx: Rates)
    requires Adjust(s, f, fx).1.Ok?
    ensures var (s', tx) := (Adjust(s, f, fx).0, Adjust(s, f, fx).1.value);
            && s'.txs == s.txs + [tx] && tx.worker == f.worker && f.worker in s'.wallets
            && tx.currency == s'.wallets[f.worker].currency
            && -0.5 <= tx.amount as real - Worth(f.amount, f.currency, tx.currency, fx) <= 0.5
            && (forall v :: v != f.worker ==> SameAccount(s, s', v))
            && (tx.amount > 0 ==> tx.kind == Adjustment) && (tx.amount < 0 ==> tx.kind == Payout)
  {
    hide HalfAway, Converted, GetOrCreate;
    var s1 := Opened(s, f.worker, f.local);
    var c := s1.wallets[f.worker].currency;
    var amount := Amount(f, c, fx).value;
    HalfAwayIsNearest(amount);
    HalfAwayOf(amount);
    forall v | v != f.worker
      ensures SameAccount(s, Adjust(s, f, fx).0, v)
    {
      assert SameAccount(s, s1, v);
    }
    if f.currency != "" && f.currency != c {
      var rate := fx(f.currency, c).value;
      ConvertedIsNearest(f.amount, rate);
      WholeCents(0, Converted(f.amount, rate));
    }
  }

  /** GetOrCreate, with what the proof above needs of it. */
  lemma Opened(s: State, w: nat, local: Code) returns (s1: State)
    ensures s1 == GetOrCreate(s, w, local) && w in s1.wallets && s1.txs == s.txs
    ensures forall v :: v != w ==> SameAccount(s, s1, v)
  {
    s1 := GetOrCreate(s, w, local);
  }

  /** A credit leaves the wallet in the payslip's currency, worth the net on top of what was
      there, to the nearest cent, and exact if nothing had to be converted. */
  lemma CreditIsWorthTheNet(s: State, period: nat, p: Summary, fx: Rates)
    requires Credit(s, period, p, fx).1.Credited?
    ensures var s' := Credit(s, period, p, fx).0;
            var was := if p.worker in s.wallets then s.wallets[p.worker] else Account(0, p.currency);
            && p.worker in s'.wallets && s'.wallets[p.worker].currency == p.currency
            && -0.5 <= (s'.wallets[p.worker].balance - p.net) as real - Worth(was.balance as real, was.currency, p.currency, fx) <= 0.5
            && (was.currency == p.currency || was.balance == 0 ==> s'.wallets[p.worker].balance == was.balance + p.net)
            && (forall v :: v != p.worker ==> SameAccount(s, s', v))
  {
    hide HalfAway, Paid;
    if p.worker in s.wallets {
      var a := s.wallets[p.worker];
      var worth := Worth(a.balance as real, a.currency, p.currency, fx);
      HalfAwayIsNearest(worth);
      assert a.balance == 0 ==> worth == 0.0;
    }
  }

  // ---- currencies left behind ----------------------------------------------------------

  /** Holds of the whole ledger: a new transaction is in the wallet's currency, and the
      books say that the others add up to zero. */
  lemma AddKeepsClosed(txs: seq<Tx>, t: Tx)
    requires OtherCurrenciesClosed(txs) && forall c: Code :: c != t.currency ==> SumIn(txs, t.worker, c) == 0
    ensures OtherCurrenciesClosed(txs + [t])
  {
    hide SumIn;
    var txs' := txs + [t];
    forall j, c: Code | 0 <= j < |txs'| && c != txs'[j].currency
      ensures SumIn(txs'[..j], txs'[j].worker, c) == 0
    {
      assert txs'[..j] == txs[..j];
      if j == |txs| {
        assert txs[..j] == txs;
      }
    }
  }

  lemma BooksClose(s: State, w: nat)
    requires Books(s)
    ensures forall c: Code :: (w !in s.wallets || c != s.wallets[w].currency) ==> SumIn(s.txs, w, c) == 0
  {
    forall c: Code | w !in s.wallets || c != s.wallets[w].currency
      ensures SumIn(s.txs, w, c) == 0
    {
      assert SumIn(s.txs, w, c) == Holding(s, w, c);
    }
  }

  lemma MoveKeepsClosed(s: State, w: nat, target: Code, fx: Rates)
    requires Books(s) && OtherCurrenciesClosed(s.txs) && w in s.wallets && MoveTo(s, w, target, fx).Some?
    ensures OtherCurrenciesClosed(MoveTo(s, w, target, fx).value.txs)
  {
    hide HalfAway, SumIn, OtherCurrenciesClosed;
    var (a, s') := (s.wallets[w], MoveTo(s, w, target, fx).value);
    if a.currency != target && a.balance != 0 {
      var out := Tx(w, Adjustment, -a.balance, a.currency, None);
      var in_ := Tx(w, Adjustment, s'.wallets[w].balance, target, None);
      assert s'.txs == (s.txs + [out]) + [in_];
      BooksClose(s, w);
      AddKeepsClosed(s.txs, out);
      forall c: Code | c != target
        ensures SumIn(s.txs + [out], w, c) == 0
      {
        SumAdd(s.txs, out, w, c);
        assert SumIn(s.txs, w, c) == Holding(s, w, c);
      }
      AddKeepsClosed(s.txs + [out], in_);
    }
  }

  lemma CreditKeepsClosed(s: State, period: nat, p: Summary, fx: Rates)
    requires Books(s) && OtherCurrenciesClosed(s.txs)
    ensures OtherCurrenciesClosed(Credit(s, period, p, fx).0.txs)
  {
    hide SumIn, MoveTo, Paid, OtherCurrenciesClosed, Books;
    var (s', o) := Credit(s, period, p, fx);
    if o.Credited? {
      var s1 := Ready(s, p, fx).value;
      if p.worker in s.wallets {
        MoveKeepsBooks(s, p.worker, p.currency, fx);
        MoveKeepsClosed(s, p.worker, p.currency, fx);
        MoveLands(s, p.worker, p.currency, fx);
      } else {
        ViewKeepsBooks(s, p.worker, p.currency);
      }
      BooksClose(s1, p.worker);
      AddKeepsClosed(s1.txs, Tx(p.worker, PayrollCredit, p.net, p.currency, Some(period)));
    }
  }

  lemma {:induction false} PushKeepsClosed(s: State, period: nat, ps: seq<Summary>, fx: Rates)
    requires Books(s) && OtherCurrenciesClosed(s.txs)
    ensures OtherCurrenciesClosed(PushAll(s, period, ps, fx).0.txs)
  {
    if ps != [] {
      PushKeepsClosed(s, period, ps[..|ps| - 1], fx);
      PushKeepsBooks(s, period, ps[..|ps| - 1], fx);
      hide Books, Credit, OtherCurrenciesClosed;
      CreditKeepsClosed(PushAll(s, period, ps[..|ps| - 1], fx).0, period, ps[|ps| - 1], fx);
    }
  }

  lemma StepKeepsClosed(s: State, e: Event)
    requires Books(s) && OtherCurrenciesClosed(s.txs)
    ensures OtherCurrenciesClosed(Step(s, e).txs)
  {
    hide Books, OtherCurrenciesClosed, PushAll, HalfAway, Refusal;
    match e {
      case OnView(w, local) =>
      case OnPush(period, _, ps, fx) => PushKeepsClosed(s, period, ps, fx);
      case OnAdjust(f, fx) =>
        if Refusal(f).None? {
          var s1 := GetOrCreate(s, f.worker, f.local);
          var amount := Amount(f, s1.wallets[f.worker].currency, fx);
          if amount.Some? {
            ViewKeepsBooks(s, f.worker, f.local);
            BooksClose(s1, f.worker);
            AddKeepsClosed(s1.txs, Post(s1, f.worker, amount.value).1);
          }
        }
    }
  }

  /** Every currency epoch but the last adds up to zero: where a worker's ledger changes
      currency, all that went before cancels out in every currency. */
  lemma EarlierEpochsCancel(es: seq<Event>, i: nat, j: nat, c: Code)
    requires forall k :: 0 <= k < |es| ==> Clean(Run(EMPTY, es[..k]), es[k])
    requires i < j < |Run(EMPTY, es).txs|
    requires var txs := Run(EMPTY, es).txs;
             && txs[i].worker == txs[j].worker && txs[i].currency != txs[j].currency
             && forall k :: i < k < j ==> txs[k].worker != txs[j].worker
    ensures SumIn(Run(EMPTY, es).txs[..j], Run(EMPTY, es).txs[j].worker, c) == 0
  {
    var txs := Run(EMPTY, es).txs;
    assert OtherCurrenciesClosed(txs) by {
      hide OtherCurrenciesClosed;
      CleanRunBalances(es, |es|);
      assert es[..|es|] == es;
    }
    hide Run, Clean, SumIn;
    if c == txs[j].currency {
      assert SumIn(txs[..i], txs[i].worker, c) == 0;
      assert txs[..i + 1] == txs[..i] + [txs[i]];
      SumAdd(txs[..i], txs[i], txs[i].worker, c);
      SumSkips(txs, i + 1, j, txs[j].worker, c);
    }
  }

  lemma {:induction false} SumSkips(txs: seq<Tx>, i: nat, j: nat, w: nat, c: Code)
    requires i <= j <= |txs| && forall k :: i <= k < j ==> txs[k].worker != w
    ensures SumIn(txs[..j], w, c) == SumIn(txs[..i], w, c)
    decreases j - i
  {
    if i < j {
      assert txs[..j][..j - 1] == txs[..j - 1];
      SumSkips(txs, i, j - 1, w, c);
    }
  }

  // ---- pay ------------------------------------------------------------------------------

  ghost predicate PaidOnce(txs: seq<Tx>) {
    forall i, j, w, period :: 0 <= i < j < |txs| && IsCredit(txs[i], w, period) ==> !IsCredit(txs[j], w, period)
  }

  lemma CreditKeepsPaidOnce(s: State, period: nat, p: Summary, fx: Rates)
    requires PaidOnce(s.txs)
    ensures PaidOnce(Credit(s, period, p, fx).0.txs)
  {
    hide HalfAway;
    var s' := Credit(s, period, p, fx).0;
    assert s'.txs[..|s.txs|] == s.txs;
    assert forall i, w, q :: |s.txs| <= i < |s'.txs| && IsCredit(s'.txs[i], w, q) ==> i == |s'.txs| - 1 && w == p.worker && q == period;
  }

  lemma {:induction false} PushKeepsPaidOnce(s: State, period: nat, ps: seq<Summary>, fx: Rates)
    requires PaidOnce(s.txs)
    ensures PaidOnce(PushAll(s, period, ps, fx).0.txs)
  {
    if ps != [] {
      PushKeepsPaidOnce(s, period, ps[..|ps| - 1], fx);
      hide PaidOnce, Credit;
      CreditKeepsPaidOnce(PushAll(s, period, ps[..|ps| - 1], fx).0, period, ps[|ps| - 1], fx);
    }
  }

  /** In every run, a worker is credited at most once for a period. */
  lemma {:induction false} NobodyPaidTwice(es: seq<Event>)
    ensures PaidOnce(Run(EMPTY, es).txs)
  {
    if es != [] {
      NobodyPaidTwice(es[..|es| - 1]);
      var s := Run(EMPTY, es[..|es| - 1]);
      hide Run, PushAll, HalfAway, Refusal;
      match es[|es| - 1] {
        case OnView(w, local) =>
        case OnPush(period, _, ps, fx) => PushKeepsPaidOnce(s, period, ps, fx);
        case OnAdjust(f, fx) =>
      }
    }
  }

  predicate SameAccount(s: State, t: State, w: nat) {
    (w in s.wallets <==> w in t.wallets) && (w in s.wallets ==> s.wallets[w] == t.wallets[w])
  }

  /** Whether the credit of p would change nothing. */
  predicate Idle(s: State, period: nat, p: Summary, fx: Rates) {
    Credit(s, period, p, fx).0 == s && !Credit(s, period, p, fx).1.Credited?
  }

  lemma CreditIsLocal(s: State, period: nat, p: Summary, fx: Rates, w: nat)
    ensures var s' := Credit(s, period, p, fx).0;
            && (Paid(s.txs, w, period) ==> Paid(s'.txs, w, period))
            && (Paid(s'.txs, w, period) || (SameAccount(s, s', w) && Paid(s'.txs, w, period) == Paid(s.txs, w, period)))
            && Idle(s', period, p, fx)
  {
    hide HalfAway;
    var (s', o) := Credit(s, period, p, fx);
    assert s'.txs[..|s.txs|] == s.txs;
    if Paid(s.txs, w, period) {
      var i :| 0 <= i < |s.txs| && IsCredit(s.txs[i], w, period);
      assert IsCredit(s'.txs[i], w, period);
    }
    if o.Credited? {
      assert IsCredit(s'.txs[|s'.txs| - 1], p.worker, period);
      assert Paid(s'.txs, p.worker, period);
    }
  }

  lemma IdleStaysIdle(s: State, period: nat, p: Summary, next: Summary, fx: Rates)
    requires Idle(s, period, p, fx)
    ensures Idle(Credit(s, period, next, fx).0, period, p, fx)
  {
    hide Paid, HalfAway;
    CreditIsLocal(s, period, next, fx, p.worker);
  }

  lemma {:induction false} PushLeavesAllIdle(s: State, period: nat, ps: seq<Summary>, fx: Rates, k: nat)
    requires k < |ps|
    ensures Idle(PushAll(s, period, ps, fx).0, period, ps[k], fx)
  {
    hide Credit, Idle;
    var s1 := PushAll(s, period, ps[..|ps| - 1], fx).0;
    if k == |ps| - 1 {
      CreditIsLocal(s1, period, ps[k], fx, ps[k].worker);
    } else {
      PushLeavesAllIdle(s, period, ps[..|ps| - 1], fx, k);
      IdleStaysIdle(s1, period, ps[k], ps[|ps| - 1], fx);
    }
  }

  lemma {:induction false} AllIdleChangesNothing(s: State, period: nat, ps: seq<Summary>, fx: Rates)
    requires forall k :: 0 <= k < |ps| ==> Idle(s, period, ps[k], fx)
    ensures PushAll(s, period, ps, fx).0 == s && PushAll(s, period, ps, fx).1.credited == 0
  {
    hide Credit;
    if ps != [] {
      var front := ps[..|ps| - 1];
      assert forall k :: 0 <= k < |front| ==> front[k] == ps[k];
      AllIdleChangesNothing(s, period, front, fx);
      assert Idle(s, period, ps[|ps| - 1], fx);
    }
  }

  /** With the same rates, pushing a period again pays nobody and changes nothing. */
  lemma SameRatesSamePush(s: State, period: nat, ps: seq<Summary>, fx: Rates)
    ensures var s1 := PushAll(s, period, ps, fx).0;
            PushAll(s1, period, ps, fx).0 == s1 && PushAll(s1, period, ps, fx).1.credited == 0
  {
    hide Idle;
    forall k | 0 <= k < |ps|
      ensures Idle(PushAll(s, period, ps, fx).0, period, ps[k], fx)
    {
      PushLeavesAllIdle(s, period, ps, fx, k);
    }
    AllIdleChangesNothing(PushAll(s, period, ps, fx).0, period, ps, fx);
  }

  /** Whether the worker's wallet can take the payslip's currency. */
  predicate HasRate(s: State, p: Summary, fx: Rates) {
    p.worker in s.wallets && s.wallets[p.worker].currency != p.currency && s.wallets[p.worker].balance != 0 ==>
      var rate := fx(s.wallets[p.worker].currency, p.currency);
      rate.Some? && rate.value > 0.0
  }

  /** Something to pay, not paid yet, and a way to pay it. */
  predicate Payable(s: State, period: nat, p: Summary, fx: Rates) {
    p.net > 0 && !Paid(s.txs, p.worker, period) && HasRate(s, p, fx)
  }

  lemma CreditByCases(s: State, period: nat, p: Summary, fx: Rates)
    ensures var (s', o) := Credit(s, period, p, fx);
            && (o.Credited? <==> Payable(s, period, p, fx))
            && (o.NoRate? <==> p.net > 0 && !Paid(s.txs, p.worker, period) && !HasRate(s, p, fx))
            && (o.Credited? ==> Paid(s'.txs, p.worker, period) && |s'.txs| > |s.txs|)
            && (!o.Credited? ==> s' == s)
            && |s'.txs| >= |s.txs|
  {
    hide HalfAway, Paid;
    var (s', o) := Credit(s, period, p, fx);
    if o.Credited? {
      assert IsCredit(s'.txs[|s'.txs| - 1], p.worker, period);
      LastIsPaid(s'.txs, p.worker, period);
    }
  }

  lemma LastIsPaid(txs: seq<Tx>, w: nat, period: nat)
    requires txs != [] && IsCredit(txs[|txs| - 1], w, period)
    ensures Paid(txs, w, period)
  {
  }

  lemma CreditTouchesOne(s: State, period: nat, p: Summary, fx: Rates, w: nat)
    requires w != p.worker
    ensures var s' := Credit(s, period, p, fx).0;
            SameAccount(s, s', w) && (Paid(s'.txs, w, period) <==> Paid(s.txs, w, period))
  {
    hide HalfAway;
    CreditIsLocal(s, period, p, fx, w);
    var s' := Credit(s, period, p, fx).0;
    if Paid(s'.txs, w, period) {
      var i :| 0 <= i < |s'.txs| && IsCredit(s'.txs[i], w, period);
      assert i < |s.txs| && s'.txs[i] == s.txs[i];
    }
  }

  /** A push leaves a worker's account alone, or pays one who was listed and unpaid. */
  lemma {:induction false} PushTouches(s: State, period: nat, ps: seq<Summary>, fx: Rates, w: nat)
    ensures var s' := PushAll(s, period, ps, fx).0;
            || (SameAccount(s, s', w) && (Paid(s'.txs, w, period) <==> Paid(s.txs, w, period)))
            || (!Paid(s.txs, w, period) && Paid(s'.txs, w, period) && exists k :: 0 <= k < |ps| && ps[k].worker == w && ps[k].net > 0)
  {
    if ps != [] {
      var (front, p) := (ps[..|ps| - 1], ps[|ps| - 1]);
      PushTouches(s, period, front, fx, w);
      var s1 := PushAll(s, period, front, fx).0;
      assert forall k :: 0 <= k < |front| ==> front[k] == ps[k];
      CreditByCases(s1, period, p, fx);
      if p.worker != w {
        CreditTouchesOne(s1, period, p, fx, w);
      }
      hide Credit, Paid, HasRate;
    }
  }

  /** The push changes something exactly when somebody is payable, and then it credits. */
  lemma {:induction false} PushMovesIff(s: State, period: nat, ps: seq<Summary>, fx: Rates)
    ensures var (s', r) := PushAll(s, period, ps, fx);
            && (s' == s <==> forall k :: 0 <= k < |ps| ==> !Payable(s, period, ps[k], fx))
            && (r.credited == 0 <==> s' == s)
            && (s' != s ==> |s'.txs| > |s.txs|)
  {
    if ps != [] {
      var (front, p) := (ps[..|ps| - 1], ps[|ps| - 1]);
      PushMovesIff(s, period, front, fx);
      assert forall k :: 0 <= k < |front| ==> front[k] == ps[k];
      CreditByCases(PushAll(s, period, front, fx).0, period, p, fx);
      hide Credit, Payable;
    }
  }

  /** Pushing a period again, with whatever rates there are by then: it credits only workers
      whom the first push named as lacking a rate, touches nobody else's account, and changes
      nothing exactly when no unpaid worker with something to pay has a rate now; so with the
      rates of the first push it never does. */
  lemma PushIsIdempotent(s: State, period: nat, ps: seq<Summary>, fx: Rates, fx': Rates)
    ensures var (s1, r1) := PushAll(s, period, ps, fx);
            var (s2, r2) := PushAll(s1, period, ps, fx');
            && (forall w :: SameAccount(s1, s2, w) || (!Paid(s1.txs, w, period) && Paid(s2.txs, w, period) && w in r1.noRate))
            && (s2 == s1 <==> forall k :: 0 <= k < |ps| ==> !Payable(s1, period, ps[k], fx'))
            && (r2.credited == 0 <==> s2 == s1)
            && (fx' == fx ==> s2 == s1)
  {
    hide PushAll, Paid, Payable, SameAccount;
    var (s1, r1) := PushAll(s, period, ps, fx);
    PushMovesIff(s1, period, ps, fx');
    PushAccountsForAll(s, period, ps, fx);
    SameRatesSamePush(s, period, ps, fx);
    forall w
      ensures SameAccount(s1, PushAll(s1, period, ps, fx').0, w)
              || (!Paid(s1.txs, w, period) && Paid(PushAll(s1, period, ps, fx').0.txs, w, period) && w in r1.noRate)
    {
      PushTouches(s1, period, ps, fx', w);
    }
  }

  /** Every summary is credited or skipped, and every worker with something to pay is paid
      afterwards or named as lacking a rate. */
  lemma {:induction false} PushAccountsForAll(s: State, period: nat, ps: seq<Summary>, fx: Rates)
    ensures var r := PushAll(s, period, ps, fx).1;
            r.credited + r.skipped == |ps| && |r.noRate| <= r.skipped
    ensures forall k :: 0 <= k < |ps| && ps[k].net > 0 ==>
              Paid(PushAll(s, period, ps, fx).0.txs, ps[k].worker, period) || ps[k].worker in PushAll(s, period, ps, fx).1.noRate
  {
    if ps != [] {
      var (front, p) := (ps[..|ps| - 1], ps[|ps| - 1]);
      PushAccountsForAll(s, period, front, fx);
      var s1 := PushAll(s, period, front, fx).0;
      assert forall k :: 0 <= k < |front| ==> front[k] == ps[k];
      CreditByCases(s1, period, p, fx);
      forall k | 0 <= k < |front|
        ensures Paid(s1.txs, front[k].worker, period) ==> Paid(Credit(s1, period, p, fx).0.txs, front[k].worker, period)
      {
        CreditIsLocal(s1, period, p, fx, front[k].worker);
      }
      hide Credit, Paid, PushAll, HasRate;
      PushUnfolds(s, period, ps, fx);
    }
  }

  /** One payslip per worker and period, a constraint of the table. */
  ghost predicate OnePayslipEach(ps: seq<Summary>) {
    forall i, j :: 0 <= i < j < |ps| ==> ps[i].worker != ps[j].worker
  }

  /** Which workers a push pays, and which it names, decided by the state before it: a listed
      worker is paid afterwards exactly when paid before or with something to pay and a rate,
      and named exactly when unpaid, with something to pay, and without a rate. */
  lemma {:induction false} PushPaysExactly(s: State, period: nat, ps: seq<Summary>, fx: Rates, k: nat)
    requires OnePayslipEach(ps) && k < |ps|
    ensures var ((s', r), p) := (PushAll(s, period, ps, fx), ps[k]);
            && (Paid(s'.txs, p.worker, period) <==> Paid(s.txs, p.worker, period) || (p.net > 0 && HasRate(s, p, fx)))
            && (p.worker in r.noRate <==> !Paid(s.txs, p.worker, period) && p.net > 0 && !HasRate(s, p, fx))
  {
    hide PushAll, Credit, Paid, HasRate, SameAccount;
    var (front, n) := (ps[..|ps| - 1], |ps| - 1);
    var (s1, w) := (PushAll(s, period, front, fx).0, ps[k].worker);
    assert forall j :: 0 <= j < |front| ==> front[j] == ps[j];
    PushUnfolds(s, period, ps, fx);
    if k < n {
      PushPaysExactly(s, period, front, fx, k);
      CreditTouchesOne(s1, period, ps[n], fx, w);
    } else {
      PushTouches(s, period, front, fx, w);
      RateStays(s, s1, ps[n], fx);
      OnlyListedAreNamed(s, period, front, fx, w);
      CreditByCases(s1, period, ps[n], fx);
      var (r1, o) := (PushAll(s, period, front, fx).1, Credit(s1, period, ps[n], fx).1);
      assert PushAll(s, period, ps, fx).1.noRate == r1.noRate + if o.NoRate? then [w] else [];
    }
  }

  lemma RateStays(s: State, t: State, p: Summary, fx: Rates)
    requires SameAccount(s, t, p.worker)
    ensures HasRate(s, p, fx) <==> HasRate(t, p, fx)
  {
  }

  lemma {:induction false} OnlyListedAreNamed(s: State, period: nat, ps: seq<Summary>, fx: Rates, w: nat)
    requires forall k :: 0 <= k < |ps| ==> ps[k].worker != w
    ensures w !in PushAll(s, period, ps, fx).1.noRate
  {
    if ps != [] {
      var front := ps[..|ps| - 1];
      assert forall k :: 0 <= k < |front| ==> front[k] == ps[k];
      OnlyListedAreNamed(s, period, front, fx, w);
      hide PushAll, Credit;
      PushUnfolds(s, period, ps, fx);
    }
  }

  lemma PushUnfolds(s: State, period: nat, ps: seq<Summary>, fx: Rates)
    requires ps != []
    ensures var (s1, r) := PushAll(s, period, ps[..|ps| - 1], fx);
            var (s2, o) := Credit(s1, period, ps[|ps| - 1], fx);
            PushAll(s, period, ps, fx) == (s2, Noted(r, ps[|ps| - 1], o))
  {
  }

  // ---- what is shown -----------------------------------------------------------------------

  /** An administrator's listing shows the currency the worker's own view would show. */
  lemma RosterShowsTheWorkersCurrency(s: State, w: nat, local: Code)
    requires w in s.wallets
    ensures Display(s.wallets[w], local) == Display(GetOrCreate(s, w, local).wallets[w], local)
    ensures GetOrCreate(s, w, local).wallets[w].balance == s.wallets[w].balance
    ensures s.wallets[w].balance != 0 ==> GetOrCreate(s, w, local) == s
  {
  }

  // ---- what each call does ---------------------------------------------------------------------

  /** The currency of a wallet once it was opened: an empty or new one takes the worker's. */
  function OpenedIn(s: State, w: nat, local: Code): Code {
    if w in s.wallets && s.wallets[w].balance != 0 then s.wallets[w].currency else local
  }

  /** Opening a wallet moves no money, writes nothing to the ledger and touches no other wallet;
      an empty or new one is then in the worker's payout currency, and another keeps its own. */
  lemma OpeningIsExact(s: State, w: nat, local: Code)
    ensures var s' := GetOrCreate(s, w, local);
            && s'.txs == s.txs && s'.wallets.Keys == s.wallets.Keys + {w}
            && s'.wallets[w] == Account(if w in s.wallets then s.wallets[w].balance else 0, OpenedIn(s, w, local))
            && forall v :: v in s.wallets && v != w ==> s'.wallets[v] == s.wallets[v]
  {
  }

  /** An adjustment is accepted exactly with a note, an amount that is not zero, a known worker,
      and a rate if it is in another currency than the opened wallet's. One that is refused
      writes no transaction and moves no money; it has opened the wallet if only the rate was
      missing. */
  lemma AdjustmentIsAcceptedIff(s: State, f: Form, fx: Rates)
    ensures var (s', r) := Adjust(s, f, fx);
            var (wellFormed, c) := (Strip(f.note) != "" && f.amount != 0.0, OpenedIn(s, f.worker, f.local));
            && (r.Ok? <==> wellFormed && f.known && (f.currency == "" || f.currency == c || fx(f.currency, c).Some?))
            && (r == Err(NotFound) <==> wellFormed && !f.known)
            && (r.Err? ==> s' == if wellFormed && f.known then GetOrCreate(s, f.worker, f.local) else s)
  {
    hide Strip, Converted, HalfAway;
    OpeningIsExact(s, f.worker, f.local);
  }

  /** The ledger of a credit: one entry of the net for the period; before it, if a balance in
      another currency had to move, the old balance taken out and its worth put in. */
  lemma CreditIsWritten(s: State, period: nat, p: Summary, fx: Rates)
    requires Credit(s, period, p, fx).1.Credited?
    ensures var s' := Credit(s, period, p, fx).0;
            var credit := Tx(p.worker, PayrollCredit, p.net, p.currency, Some(period));
            if p.worker in s.wallets && s.wallets[p.worker].currency != p.currency && s.wallets[p.worker].balance != 0
            then && p.worker in s'.wallets
                 && var (a, moved) := (s.wallets[p.worker], s'.wallets[p.worker].balance - p.net);
                    s'.txs == s.txs + [Tx(p.worker, Adjustment, -a.balance, a.currency, None),
                                       Tx(p.worker, Adjustment, moved, p.currency, None), credit]
            else s'.txs == s.txs + [credit]
  {
    hide HalfAway, Paid;
  }

  /** Converting rounds half a cent to the even one; storing, away from zero. */
  lemma TiesAreRounded(amount: real, rate: real)
    requires IsTie(Exchanged(amount, rate))
    ensures Converted(amount, rate) % 2 == 0
    ensures HalfAway(Exchanged(amount, rate)) as real == Exchanged(amount, rate) + if Exchanged(amount, rate) > 0.0 then 0.5 else -0.5
  {
    HalfAwayOf(Exchanged(amount, rate));
    hide HalfAway;
  }
}
