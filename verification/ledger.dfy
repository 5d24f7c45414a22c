/**
 * The escrow program as it runs: the ledger's balances and records are
 * fields that each instruction updates step by step, in the order of the
 * handler, and puts back as they were when a step fails (the runtime
 * discards a failed instruction's writes). Each method is proved to do
 * what the corresponding function of `Escrow` describes.
 */
module EscrowProgram {
  import opened Types
  import opened Addressing
  import opened Lamports
  import opened Layout
  import Escrow
  import EscrowProperties

  class Ledger {
    var lamports: Balances
    var accounts: map<Address, DataAccount>

    function State(): Escrow.State
      reads this
    {
      Escrow.State(lamports, accounts)
    }

    constructor (lamports: Balances, accounts: map<Address, DataAccount>)
      ensures State() == Escrow.State(lamports, accounts)
    {
      this.lamports := lamports;
      this.accounts := accounts;
    }

    /** Puts the fields back to `saved`, as the runtime does for a failed instruction. */
    method Revert(saved: Escrow.State)
      modifies this
      ensures State() == saved
    {
      lamports, accounts := saved.lamports, saved.accounts;
    }

    /** `submit_data`, signed by `user`, at clock time `now`, with `rent` the rent-exempt minimum for the slot. */
    method SubmitData(user: Pubkey, pdfHash: seq<Byte>, latitude: seq<Byte>, longitude: seq<Byte>,
                      price: U64, depositAmount: U64, now: I64, rent: U64) returns (status: Escrow.Status)
      modifies this
      ensures Escrow.Outcome(status, State()) ==
              Escrow.SubmitData(old(State()), user, pdfHash, latitude, longitude, price, depositAmount, now, rent)
    {
      var saved := State();
      var slot, payer := DataAccountAddress(user), Wallet(user);
      // `init`: `create_account` refuses an empty slot in use before moving lamports
      if slot in accounts && Balance(lamports, slot) == 0 {
        return Escrow.Failure(AccountAlreadyInUse);
      }
      // otherwise the payer tops the slot up to the rent-exempt minimum, then `allocate` refuses a slot in use
      var funded := Transfer(lamports, payer, slot, Escrow.RentDue(Balance(lamports, slot), rent));
      if funded.Err? {
        return Escrow.Failure(funded.error);
      }
      lamports := funded.value;
      if slot in accounts {
        Revert(saved);
        return Escrow.Failure(AccountAlreadyInUse);
      }
      // the handler
      if |pdfHash| == 0 || |latitude| == 0 || |longitude| == 0 {
        Revert(saved);
        return Escrow.Failure(InvalidArgument);
      }
      var record := DataAccount(pdfHash, latitude, longitude, price, user, now, depositAmount);
      accounts := accounts[slot := record];
      var paid := Transfer(lamports, payer, slot, depositAmount);
      if paid.Err? {
        Revert(saved);
        return Escrow.Failure(paid.error);
      }
      lamports := paid.value;
      // on exit the record is serialized into the space `init` allocated
      if !Fits(record) {
        Revert(saved);
        return Escrow.Failure(AccountDidNotSerialize);
      }
      return Escrow.Success;
    }

    /** Anchor's `close` of `account` in favour of `destination`. */
    method Close(account: Address, destination: Address) returns (status: Escrow.Status)
      requires account != destination
      modifies this
      ensures Escrow.Outcome(status, State()) == Escrow.Close(old(State()), account, destination)
    {
      var held := Balance(lamports, account);
      var starting := Balance(lamports, destination);
      if starting + held > U64_MAX {
        return Escrow.Failure(ArithmeticOverflow);
      }
      lamports := lamports[destination := starting + held];
      lamports := lamports[account := 0];
      accounts := accounts - {account};
      return Escrow.Success;
    }

    /** `withdraw`, signed by `user`, at clock time `now`. */
    method Withdraw(user: Pubkey, now: I64) returns (status: Escrow.Status)
      modifies this
      ensures Escrow.Outcome(status, State()) == Escrow.Withdraw(old(State()), user, now)
    {
      var saved := State();
      var slot, dest := DataAccountAddress(user), Wallet(user);
      // the account constraint: the caller's slot must hold a record owned by the program
      if slot !in accounts {
        if Balance(lamports, slot) == 0 {
          return Escrow.Failure(AccountNotInitialized);
        }
        return Escrow.Failure(AccountOwnedByWrongProgram);
      }
      var record := accounts[slot];
      if record.timestamp + Escrow.WITHDRAW_DELAY > I64_MAX {
        return Escrow.Failure(ArithmeticOverflow);
      }
      if now < record.timestamp + Escrow.WITHDRAW_DELAY {
        return Escrow.Failure(TooEarly);
      }
      if record.depositor != user {
        return Escrow.Failure(IllegalOwner);
      }
      var amount := record.depositAmount;
      var custody := Balance(lamports, slot);
      if custody < amount {
        return Escrow.Failure(InsufficientCustody);
      }
      lamports := lamports[slot := custody - amount];
      assert Debit(saved.lamports, slot, amount) == Some(lamports);
      var balance := Balance(lamports, dest);
      if balance + amount > U64_MAX {
        Revert(saved);
        return Escrow.Failure(ArithmeticOverflow);
      }
      ghost var debited := lamports;
      lamports := lamports[dest := balance + amount];
      assert Credit(debited, dest, amount) == Some(lamports);
      ghost var moved := State();
      // closed by the handler, then again by the `close = user` constraint on exit
      status := Close(slot, dest);
      if status.Failure? {
        Revert(saved);
        return;
      }
      ghost var closed := State();
      assert Escrow.Close(moved, slot, dest) == Escrow.Outcome(Escrow.Success, closed);
      // the second close moves the zero lamports left, so it cannot fail
      EscrowProperties.CloseIdempotent(moved, slot, dest);
      status := Close(slot, dest);
    }
  }

  /**
   * The scenario of a depositor D who deposits 1000 lamports at time T on a
   * fresh ledger: a withdrawal at T + 5 is refused, one at T + 10 returns
   * the deposit and the rent, and a second one finds no slot.
   */
  method Scenario(d: Pubkey, t: I64, rent: U64)
    requires t + Escrow.WITHDRAW_DELAY <= I64_MAX
    requires rent <= 1_000_000_000
  {
    var wallet, slot := Wallet(d), DataAccountAddress(d);
    var ledger := new Ledger(map[wallet := 5_000_000_000], map[]);
    var hash: seq<Byte> := [104, 97, 115, 104, 65, 66, 67];   // "hashABC"
    var status := ledger.SubmitData(d, hash, [52, 48, 46, 48], [45, 55, 51, 46, 48], 500, 1000, t, rent);
    assert status == Escrow.Success;
    assert Balance(ledger.lamports, wallet) == 5_000_000_000 - rent - 1000;
    status := ledger.Withdraw(d, t + 5);
    assert status == Escrow.Failure(TooEarly);
    status := ledger.Withdraw(d, t + 10);
    assert status == Escrow.Success;
    assert Balance(ledger.lamports, wallet) == 5_000_000_000;
    assert slot !in ledger.accounts;
    status := ledger.Withdraw(d, t + 10);
    assert status == Escrow.Failure(AccountNotInitialized);
  }
}
