/** The encapsulated bank account: a private decimal balance that only
    guarded deposits and withdrawals change. */
module Encapsulation {
  import opened Wrappers
  import Text

  /** Largest value a System.Decimal holds; a sum beyond it throws
      OverflowException and the assignment does not happen. */
  const DecimalMax: real := 79228162514264337593543950335.0

  predicate InDecimalRange(b: real) {
    0.0 <= b <= DecimalMax
  }

  /** One call on the account's public surface. */
  datatype Call = Deposit(amount: real) | Withdraw(amount: real)

  /** The balance after one call, or None when the call throws
      OverflowException (only a deposit beyond DecimalMax can). */
  function Step(balance: real, c: Call): (r: Option<real>)
    ensures InDecimalRange(balance) ==> (r.Some? ==> InDecimalRange(r.value))
    ensures r.None? <==> (c.Deposit? && c.amount > 0.0 && balance + c.amount > DecimalMax)
    ensures r.Some? && c.Deposit? ==> r.value >= balance
    ensures r.Some? && c.Withdraw? ==> r.value <= balance
  {
    match c
    case Deposit(amount) =>
      if amount > 0.0 then
        if balance + amount > DecimalMax then None else Some(balance + amount)
      else Some(balance)
    case Withdraw(amount) =>
      if amount > 0.0 && amount <= balance then Some(balance - amount) else Some(balance)
  }

  /** A call leaves the balance as it was exactly when its guard rejects it. */
  lemma StepIdleIff(balance: real, c: Call)
    ensures Step(balance, c) == Some(balance) <==>
      (c.Deposit? && c.amount <= 0.0) ||
      (c.Withdraw? && (c.amount <= 0.0 || c.amount > balance))
  {
  }

  /** An accepted call moves the balance by exactly its amount. */
  lemma StepMovesByAmount(balance: real, c: Call)
    requires c.amount > 0.0
    requires c.Withdraw? ==> c.amount <= balance
    requires c.Deposit? ==> balance + c.amount <= DecimalMax
    ensures c.Deposit? ==> Step(balance, c) == Some(balance + c.amount)
    ensures c.Withdraw? ==> Step(balance, c) == Some(balance - c.amount)
  {
  }

  /** The balance after a sequence of calls, None once a call throws. */
  function Replay(balance: real, calls: seq<Call>): Option<real>
    decreases |calls|
  {
    if calls == [] then Some(balance)
    else
      match Step(balance, calls[0])
      case None => None
      case Some(b) => Replay(b, calls[1..])
  }

  /** No sequence of calls drives a valid balance negative or past DecimalMax. */
  lemma {:induction false} ReplayStaysInRange(balance: real, calls: seq<Call>)
    requires InDecimalRange(balance)
    ensures Replay(balance, calls).Some? ==> InDecimalRange(Replay(balance, calls).value)
    decreases |calls|
  {
    if calls != [] {
      var s := Step(balance, calls[0]);
      if s.Some? {
        ReplayStaysInRange(s.value, calls[1..]);
      }
    }
  }

  /** Replaying two batches one after the other is replaying their concatenation. */
  lemma {:induction false} ReplayAppend(balance: real, xs: seq<Call>, ys: seq<Call>)
    ensures Replay(balance, xs + ys) ==
      match Replay(balance, xs)
      case None => None
      case Some(b) => Replay(b, ys)
    decreases |xs|
  {
    if xs == [] {
      assert xs + ys == ys;
    } else {
      assert (xs + ys)[0] == xs[0];
      assert (xs + ys)[1..] == xs[1..] + ys;
      var s := Step(balance, xs[0]);
      if s.Some? {
        ReplayAppend(s.value, xs[1..], ys);
      }
    }
  }

  class BankAccount {
    var balance: real
    var holder: Option<string>

    ghost predicate Valid()
      reads this
    {
      InDecimalRange(balance)
    }

    /** A new account: balance 0 and no holder name. */
    constructor ()
      ensures Valid()
      ensures balance == 0.0 && holder == None
    {
      balance := 0.0;
      holder := None;
    }

    method SetHolder(name: Option<string>)
      modifies this`holder
      ensures holder == name
    {
      holder := name;
    }

    /** Adds a positive amount; `overflow` reports the OverflowException. */
    method Deposit(amount: real) returns (overflow: bool)
      requires Valid()
      modifies this`balance
      ensures Valid()
      ensures overflow == Step(old(balance), Call.Deposit(amount)).None?
      ensures balance == Step(old(balance), Call.Deposit(amount)).GetOr(old(balance))
    {
      overflow := false;
      if amount > 0.0 {
        if balance + amount > DecimalMax {
          overflow := true;
        } else {
          balance := balance + amount;
        }
      }
    }

    /** Takes out a positive amount that the balance covers. */
    method Withdraw(amount: real)
      requires Valid()
      modifies this`balance
      ensures Valid()
      ensures Some(balance) == Step(old(balance), Call.Withdraw(amount))
    {
      if amount > 0.0 && amount <= balance {
        balance := balance - amount;
      }
    }

    method GetBalance() returns (b: real)
      requires Valid()
      ensures b == balance && InDecimalRange(b)
    {
      b := balance;
    }
  }

  /** The program's own scenario: "Rohan" deposits 1000 and withdraws 300. */
  method EncapsulationDemo() returns (line: string)
    ensures line == "Balance for Rohan is: 700"
  {
    var acc := new BankAccount();
    acc.SetHolder(Some("Rohan"));
    var overflow := acc.Deposit(1000.0);
    acc.Withdraw(300.0);
    var b := acc.GetBalance();
    assert b.Floor == 700;
    assert Text.IntToString(700) == "700";
    line := "Balance for " + acc.holder.GetOr("") + " is: " + Text.IntToString(b.Floor);
  }

  /** The same scenario through the pure model. */
  lemma DemoReplay()
    ensures Replay(0.0, [Call.Deposit(1000.0), Call.Withdraw(300.0)]) == Some(700.0)
  {
  }
}
