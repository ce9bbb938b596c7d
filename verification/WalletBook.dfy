/** The wallet endpoints and the payroll push, on tables they update in place. Each is proved to
    do exactly what the function of the same name in module Wallet says. */
module WalletBook {
  import opened Wrappers
  import opened TextCodec
  import opened Wallet

  class Database {
    var wallets: map<nat, Account>
    var txs: seq<Tx>

    ghost function Now(): State
      reads this
    {
      State(wallets, txs)
    }

    constructor ()
      ensures Now() == EMPTY
    {
      wallets, txs := map[], [];
    }

    method GetOrCreate(w: nat, local: Code) returns (a: Account)
      modifies this`wallets
      ensures Now() == Wallet.GetOrCreate(old(Now()), w, local)
      ensures w in wallets && a == wallets[w]
    {
      if w !in wallets {
        wallets := wallets[w := Account(0, local)];
      } else if wallets[w].balance == 0 && wallets[w].currency != local {
        wallets := wallets[w := wallets[w].(currency := local)];
      }
      a := wallets[w];
    }

    method CreateAdjustment(f: Form, fx: Rates) returns (r: Result<Tx, Error>)
      modifies this
      ensures (Now(), r) == Adjust(old(Now()), f, fx)
    {
      hide Strip, HalfAway, Converted, Wallet.GetOrCreate;
      if Strip(f.note) == "" || f.amount == 0.0 {
        return Err(BadRequest);
      }
      if !f.known {
        return Err(NotFound);
      }
      var a := GetOrCreate(f.worker, f.local);
      var amount := f.amount;
      if f.currency != "" && f.currency != a.currency {
        match fx(f.currency, a.currency)
        case None => return Err(BadRequest);
        case Some(rate) => amount := Converted(f.amount, rate) as real;
      }
      ghost var mid := Wallet.GetOrCreate(old(Now()), f.worker, f.local);
      assert Amount(f, mid.wallets[f.worker].currency, fx) == Some(amount);
      var tx := Tx(f.worker, if amount > 0.0 then Adjustment else Payout, HalfAway(amount), a.currency, None);
      wallets := wallets[f.worker := a.(balance := HalfAway(a.balance as real + amount))];
      txs := txs + [tx];
      r := Ok(tx);
    }

    method MoveWalletToCurrency(w: nat, target: Code, fx: Rates) returns (ok: bool)
      requires w in wallets
      modifies this
      ensures ok == MoveTo(old(Now()), w, target, fx).Some?
      ensures Now() == if ok then MoveTo(old(Now()), w, target, fx).value else old(Now())
      ensures ok ==> w in wallets
    {
      hide HalfAway;
      var a := wallets[w];
      if a.currency == target {
        return true;
      }
      if a.balance == 0 {
        wallets := wallets[w := a.(currency := target)];
        return true;
      }
      var rate := fx(a.currency, target);
      if rate.None? || rate.value <= 0.0 {
        return false;
      }
      var moved := HalfAway(Exchanged(a.balance as real, rate.value));
      txs := txs + [Tx(w, Adjustment, -a.balance, a.currency, None), Tx(w, Adjustment, moved, target, None)];
      wallets := wallets[w := Account(moved, target)];
      return true;
    }

    method AlreadyPaid(w: nat, period: nat) returns (r: bool)
      ensures r == Paid(txs, w, period)
    {
      for i := 0 to |txs|
        invariant forall k :: 0 <= k < i ==> !IsCredit(txs[k], w, period)
      {
        if IsCredit(txs[i], w, period) {
          return true;
        }
      }
      return false;
    }

    method CreditOne(period: nat, p: Summary, fx: Rates) returns (o: Outcome)
      modifies this
      ensures (Now(), o) == Credit(old(Now()), period, p, fx)
    {
      hide Paid, MoveTo;
      if p.net <= 0 {
        return Skipped;
      }
      var paid := AlreadyPaid(p.worker, period);
      if paid {
        return Skipped;
      }
      if p.worker !in wallets {
        wallets := wallets[p.worker := Account(0, p.currency)];
      } else {
        var moved := MoveWalletToCurrency(p.worker, p.currency, fx);
        if !moved {
          return NoRate;
        }
      }
      txs := txs + [Tx(p.worker, PayrollCredit, p.net, p.currency, Some(period))];
      wallets := wallets[p.worker := Account(wallets[p.worker].balance + p.net, p.currency)];
      o := Credited;
    }

    method PushPeriodToWallets(period: nat, payable: bool, ps: seq<Summary>, fx: Rates) returns (r: Result<Report, Error>)
      modifies this
      ensures (Now(), r) == Push(old(Now()), period, payable, ps, fx)
    {
      hide Credit;
      if !payable {
        return Err(BadRequest);
      }
      var credited, skipped, noRate := 0, 0, [];
      assert ps[..0] == [];
      for i := 0 to |ps|
        invariant (Now(), Report(credited, skipped, noRate)) == PushAll(old(Now()), period, ps[..i], fx)
      {
        assert ps[..i + 1][..i] == ps[..i];
        var o := CreditOne(period, ps[i], fx);
        match o
        case Credited => credited := credited + 1;
        case Skipped => skipped := skipped + 1;
        case NoRate =>
          skipped := skipped + 1;
          noRate := noRate + [ps[i].worker];
      }
      assert ps[..|ps|] == ps;
      r := Ok(Report(credited, skipped, noRate));
    }
  }
}
