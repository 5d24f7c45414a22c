/**
 * The escrow instructions as functions of the ledger state: `SubmitData`
 * opens the caller's slot and moves the deposit in, `Withdraw` releases it
 * to the depositor after the time lock and closes the slot. A failed
 * instruction leaves the state exactly as it was (the runtime discards its
 * effects), so every function returns the old state with the error.
 */
module Escrow {
  import opened Types
  import opened Addressing
  import opened Lamports
  import opened Layout

  /** Seconds that must pass after a deposit before it can be withdrawn. */
  const WITHDRAW_DELAY: int := 10

  /** The lamports of every account, and the program's records by address. */
  datatype State = State(lamports: Balances, accounts: map<Address, DataAccount>)

  datatype Status = Success | Failure(error: Error)

  datatype Outcome = Outcome(status: Status, state: State)

  function Fail(s: State, e: Error): Outcome
  {
    Outcome(Failure(e), s)
  }

  /**
   * The lamports `init` moves from the payer so that a slot already holding
   * `held` reaches the rent-exempt minimum `rent` (a saturating subtraction).
   */
  function RentDue(held: U64, rent: U64): (due: U64)
    ensures held + due >= rent
    ensures due > 0 ==> held + due == rent
  {
    if held < rent then rent - held else 0
  }

  /**
   * `submit_data` with its account constraints. `init` runs first (the payer
   * funds the slot up to `rent`; the slot must be free), then the handler checks
   * the strings, writes the record and transfers the deposit, and finally
   * the record is serialized into the allocated space.
   */
  function SubmitData(s: State, user: Pubkey, pdfHash: seq<Byte>, latitude: seq<Byte>, longitude: seq<Byte>,
                      price: U64, depositAmount: U64, now: I64, rent: U64): (o: Outcome)
    ensures o.status.Failure? ==> o.state == s
    ensures o.status == Success ==>
      o.state.accounts == s.accounts[DataAccountAddress(user) := DataAccount(pdfHash, latitude, longitude, price, user, now, depositAmount)]
    ensures o.status == Success ==> DataAccountAddress(user) !in s.accounts
    ensures o.status == Success ==> Total(o.state.lamports) == Total(s.lamports)
  {
    var slot, payer := DataAccountAddress(user), Wallet(user);
    // an empty slot is created by `create_account`, which refuses an account in use before moving lamports
    if slot in s.accounts && Balance(s.lamports, slot) == 0 then Fail(s, AccountAlreadyInUse)
    // a slot holding lamports is topped up first, and only then does `allocate` refuse an account in use
    else match Transfer(s.lamports, payer, slot, RentDue(Balance(s.lamports, slot), rent))
    case Err(e) => Fail(s, e)
    case Ok(funded) =>
      if slot in s.accounts then Fail(s, AccountAlreadyInUse)
      else if |pdfHash| == 0 || |latitude| == 0 || |longitude| == 0 then Fail(s, InvalidArgument)
      else
        var record := DataAccount(pdfHash, latitude, longitude, price, user, now, depositAmount);
        match Transfer(funded, payer, slot, depositAmount)
        case Err(e) => Fail(s, e)
        case Ok(paid) =>
          if !Fits(record) then Fail(s, AccountDidNotSerialize)
          else Outcome(Success, State(paid, s.accounts[slot := record]))
  }

  /**
   * Anchor's `close`: every lamport of `account` goes to `destination` (a
   * checked addition that panics on overflow) and the account's data is gone.
   */
  function Close(s: State, account: Address, destination: Address): (o: Outcome)
    requires account != destination
    ensures o.status == Success <==> Balance(s.lamports, destination) + Balance(s.lamports, account) <= U64_MAX
    ensures o.status.Failure? ==> o == Fail(s, ArithmeticOverflow)
    ensures o.status == Success ==> o.state.accounts == s.accounts - {account}
    ensures o.status == Success ==> Balance(o.state.lamports, account) == 0
    ensures o.status == Success ==>
      Balance(o.state.lamports, destination) == Balance(s.lamports, destination) + Balance(s.lamports, account)
    ensures o.status == Success ==>
      forall a :: a != account && a != destination ==> Balance(o.state.lamports, a) == Balance(s.lamports, a)
    ensures o.status == Success ==> Total(o.state.lamports) == Total(s.lamports)
  {
    var held := Balance(s.lamports, account);
    match Credit(s.lamports, destination, held)
    case None => Fail(s, ArithmeticOverflow)
    case Some(credited) =>
      TotalUpdate(credited, account, 0);
      Outcome(Success, State(credited[account := 0], s.accounts - {account}))
  }

  /**
   * `withdraw` on the caller's slot: the time lock, then the depositor check,
   * then the deposit moves back with a checked subtraction and a checked
   * addition, and the slot is closed twice, once by the handler and once by
   * the `close = user` constraint on exit.
   */
  function Withdraw(s: State, user: Pubkey, now: I64): (o: Outcome)
    ensures o.status.Failure? ==> o.state == s
    ensures o.status == Success ==>
      DataAccountAddress(user) in s.accounts &&
      now >= s.accounts[DataAccountAddress(user)].timestamp + WITHDRAW_DELAY &&
      s.accounts[DataAccountAddress(user)].depositor == user
    ensures o.status == Success ==> o.state.accounts == s.accounts - {DataAccountAddress(user)}
    ensures o.status == Success ==> Balance(o.state.lamports, DataAccountAddress(user)) == 0
    ensures o.status == Success ==>
      Balance(o.state.lamports, Wallet(user)) == Balance(s.lamports, Wallet(user)) + Balance(s.lamports, DataAccountAddress(user))
    ensures o.status == Success ==>
      forall a :: a != DataAccountAddress(user) && a != Wallet(user) ==> Balance(o.state.lamports, a) == Balance(s.lamports, a)
    ensures o.status == Success ==> Total(o.state.lamports) == Total(s.lamports)
  {
    var slot, dest := DataAccountAddress(user), Wallet(user);
    if slot !in s.accounts then
      // an address the program does not own: empty, or holding lamports someone sent
      if Balance(s.lamports, slot) == 0 then Fail(s, AccountNotInitialized)
      else Fail(s, AccountOwnedByWrongProgram)
    else
      var record := s.accounts[slot];
      if record.timestamp + WITHDRAW_DELAY > I64_MAX then Fail(s, ArithmeticOverflow)
      else if now < record.timestamp + WITHDRAW_DELAY then Fail(s, TooEarly)
      else if record.depositor != user then Fail(s, IllegalOwner)
      else match Debit(s.lamports, slot, record.depositAmount)
      case None => Fail(s, InsufficientCustody)
      case Some(debited) =>
        match Credit(debited, dest, record.depositAmount)
        case None => Fail(s, ArithmeticOverflow)
        case Some(credited) =>
          var closed := Close(State(credited, s.accounts), slot, dest);
          if closed.status.Failure? then Fail(s, closed.status.error)
          else
            var again := Close(closed.state, slot, dest);
            if again.status.Failure? then Fail(s, again.status.error)
            else again
  }
}
