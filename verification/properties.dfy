/**
 * What the escrow program promises, stated over the instruction functions:
 * the order of the checks, what a successful instruction stores and moves,
 * the time lock, sole authorization, and the invariant that keeps every
 * deposit backed by the lamports of its slot.
 */
module EscrowProperties {
  import opened Types
  import opened Addressing
  import opened Lamports
  import opened Layout
  import opened Escrow

  /**
   * A submission on a slot that already holds a record always fails and
   * changes nothing. The error is AccountAlreadyInUse, unless the slot holds
   * lamports below `rent` and the payer's top-up transfer fails first; a
   * slot holding at least `rent` always reports AccountAlreadyInUse.
   */
  lemma SubmitOnOpenSlot(s: State, user: Pubkey, pdfHash: seq<Byte>, latitude: seq<Byte>, longitude: seq<Byte>,
                         price: U64, depositAmount: U64, now: I64, rent: U64)
    requires DataAccountAddress(user) in s.accounts
    ensures var slot := DataAccountAddress(user);
            var topUp := Transfer(s.lamports, Wallet(user), slot, RentDue(Balance(s.lamports, slot), rent));
            var o := SubmitData(s, user, pdfHash, latitude, longitude, price, depositAmount, now, rent);
            (Balance(s.lamports, slot) == 0 || topUp.Ok? ==> o == Fail(s, AccountAlreadyInUse)) &&
            (Balance(s.lamports, slot) > 0 && topUp.Err? ==> o == Fail(s, topUp.error))
    ensures Balance(s.lamports, DataAccountAddress(user)) >= rent ==>
            SubmitData(s, user, pdfHash, latitude, longitude, price, depositAmount, now, rent) == Fail(s, AccountAlreadyInUse)
  {
  }

  /**
   * An empty hash or coordinate is rejected with InvalidArgument as soon as
   * the slot could be allocated, and a submission is only ever rejected with
   * InvalidArgument because a string was empty.
   */
  lemma SubmitEmptyField(s: State, user: Pubkey, pdfHash: seq<Byte>, latitude: seq<Byte>, longitude: seq<Byte>,
                         price: U64, depositAmount: U64, now: I64, rent: U64)
    ensures var o := SubmitData(s, user, pdfHash, latitude, longitude, price, depositAmount, now, rent);
            o.status == Failure(InvalidArgument) ==> |pdfHash| == 0 || |latitude| == 0 || |longitude| == 0
    ensures var slot := DataAccountAddress(user);
            var o := SubmitData(s, user, pdfHash, latitude, longitude, price, depositAmount, now, rent);
            (|pdfHash| == 0 || |latitude| == 0 || |longitude| == 0) && slot !in s.accounts &&
            Transfer(s.lamports, Wallet(user), slot, RentDue(Balance(s.lamports, slot), rent)).Ok? ==>
            o == Fail(s, InvalidArgument)
    ensures (|pdfHash| == 0 || |latitude| == 0 || |longitude| == 0) ==>
            SubmitData(s, user, pdfHash, latitude, longitude, price, depositAmount, now, rent).status.Failure?
  {
  }

  /**
   * A successful submission stores the arguments verbatim, the caller as
   * depositor and the clock as timestamp; the caller pays the rent still due
   * and the deposit, the slot receives exactly that, and nobody else's
   * lamports change.
   */
  lemma SubmitEffect(s: State, user: Pubkey, pdfHash: seq<Byte>, latitude: seq<Byte>, longitude: seq<Byte>,
                     price: U64, depositAmount: U64, now: I64, rent: U64)
    requires SubmitData(s, user, pdfHash, latitude, longitude, price, depositAmount, now, rent).status == Success
    ensures var o := SubmitData(s, user, pdfHash, latitude, longitude, price, depositAmount, now, rent);
            var slot := DataAccountAddress(user);
            var record := o.state.accounts[slot];
            record.pdfHash == pdfHash && record.latitude == latitude && record.longitude == longitude &&
            record.price == price && record.depositor == user && record.timestamp == now &&
            record.depositAmount == depositAmount
    ensures var o := SubmitData(s, user, pdfHash, latitude, longitude, price, depositAmount, now, rent);
            var slot := DataAccountAddress(user);
            var moved := RentDue(Balance(s.lamports, slot), rent) + depositAmount;
            Balance(o.state.lamports, Wallet(user)) + moved == Balance(s.lamports, Wallet(user)) &&
            Balance(o.state.lamports, slot) == Balance(s.lamports, slot) + moved &&
            Balance(o.state.lamports, slot) >= rent + depositAmount
    ensures var o := SubmitData(s, user, pdfHash, latitude, longitude, price, depositAmount, now, rent);
            forall a :: a != DataAccountAddress(user) && a != Wallet(user) ==> Balance(o.state.lamports, a) == Balance(s.lamports, a)
  {
  }

  /** The conditions under which a submission succeeds, in the order they are checked. */
  lemma SubmitSucceedsExactly(s: State, user: Pubkey, pdfHash: seq<Byte>, latitude: seq<Byte>, longitude: seq<Byte>,
                              price: U64, depositAmount: U64, now: I64, rent: U64)
    ensures var slot := DataAccountAddress(user);
            var due := RentDue(Balance(s.lamports, slot), rent);
            SubmitData(s, user, pdfHash, latitude, longitude, price, depositAmount, now, rent).status == Success <==>
              slot !in s.accounts &&
              due + depositAmount <= Balance(s.lamports, Wallet(user)) &&
              Balance(s.lamports, slot) + due + depositAmount <= U64_MAX &&
              |pdfHash| > 0 && |latitude| > 0 && |longitude| > 0 &&
              |pdfHash| + |latitude| + |longitude| <= 128
  {
  }

  /**
   * Before the lock expires, withdrawal fails with TooEarly whoever calls,
   * and nothing changes: the time lock is checked before the depositor.
   */
  lemma WithdrawTooEarly(s: State, user: Pubkey, now: I64)
    requires DataAccountAddress(user) in s.accounts
    requires s.accounts[DataAccountAddress(user)].timestamp + WITHDRAW_DELAY <= I64_MAX
    requires now < s.accounts[DataAccountAddress(user)].timestamp + WITHDRAW_DELAY
    ensures Withdraw(s, user, now) == Fail(s, TooEarly)
  {
  }

  /** After the lock expires, a caller who is not the recorded depositor gets IllegalOwner and nothing changes. */
  lemma WithdrawNotDepositor(s: State, user: Pubkey, now: I64)
    requires DataAccountAddress(user) in s.accounts
    requires now >= s.accounts[DataAccountAddress(user)].timestamp + WITHDRAW_DELAY
    requires s.accounts[DataAccountAddress(user)].depositor != user
    ensures Withdraw(s, user, now) == Fail(s, IllegalOwner)
  {
  }

  /**
   * A caller without an open slot has nothing to withdraw: the slot is not
   * initialized when it is empty, and owned by the wrong program when it
   * holds lamports someone sent to it.
   */
  lemma WithdrawNoSlot(s: State, user: Pubkey, now: I64)
    requires DataAccountAddress(user) !in s.accounts
    ensures Balance(s.lamports, DataAccountAddress(user)) == 0 ==> Withdraw(s, user, now) == Fail(s, AccountNotInitialized)
    ensures Balance(s.lamports, DataAccountAddress(user)) > 0 ==> Withdraw(s, user, now) == Fail(s, AccountOwnedByWrongProgram)
  {
  }

  /**
   * In a consistent state whose supply fits in a u64, the caller's
   * withdrawal succeeds exactly when the caller has an open slot whose
   * deadline neither overflows nor lies in the future.
   */
  lemma WithdrawSucceedsExactly(s: State, user: Pubkey, now: I64)
    requires Consistent(s)
    requires Total(s.lamports) <= U64_MAX
    ensures var slot := DataAccountAddress(user);
            Withdraw(s, user, now).status == Success <==>
              slot in s.accounts &&
              s.accounts[slot].timestamp + WITHDRAW_DELAY <= I64_MAX &&
              now >= s.accounts[slot].timestamp + WITHDRAW_DELAY
  {
    BalancesWithinTotal(s.lamports, Wallet(user), DataAccountAddress(user));
    ConsistentWithdrawGuards(s, user, now);
  }

  /** Closing an account that is already closed changes nothing, so the second close in `withdraw` is harmless. */
  lemma CloseIdempotent(s: State, account: Address, destination: Address)
    requires account != destination
    requires Close(s, account, destination).status == Success
    ensures var closed := Close(s, account, destination).state;
            Close(closed, account, destination) == Outcome(Success, closed)
  {
  }

  /** Once a withdrawal succeeded the slot is gone, so a second withdrawal fails. */
  lemma WithdrawTwice(s: State, user: Pubkey, now: I64, later: I64)
    requires Withdraw(s, user, now).status == Success
    ensures var after := Withdraw(s, user, now).state;
            Withdraw(after, user, later) == Fail(after, AccountNotInitialized)
  {
  }

  /**
   * The state invariant the two instructions keep: every record sits in the
   * slot derived from its own depositor, and the slot's lamports cover the
   * recorded deposit.
   */
  ghost predicate Consistent(s: State)
  {
    forall a | a in s.accounts ::
      a == DataAccountAddress(s.accounts[a].depositor) &&
      s.accounts[a].depositAmount <= Balance(s.lamports, a)
  }

  lemma {:induction false} SubmitKeepsConsistent(s: State, user: Pubkey, pdfHash: seq<Byte>, latitude: seq<Byte>, longitude: seq<Byte>,
                                                 price: U64, depositAmount: U64, now: I64, rent: U64)
    requires Consistent(s)
    ensures Consistent(SubmitData(s, user, pdfHash, latitude, longitude, price, depositAmount, now, rent).state)
  {
  }

  lemma {:induction false} WithdrawKeepsConsistent(s: State, user: Pubkey, now: I64)
    requires Consistent(s)
    ensures Consistent(Withdraw(s, user, now).state)
  {
  }

  /**
   * In a consistent state the owner check and the underflow guard never
   * fire: the slot a caller names always records that caller, and always
   * holds the deposit.
   */
  lemma ConsistentWithdrawGuards(s: State, user: Pubkey, now: I64)
    requires Consistent(s)
    ensures Withdraw(s, user, now).status != Failure(IllegalOwner)
    ensures Withdraw(s, user, now).status != Failure(InsufficientCustody)
  {
  }

  /**
   * While the total supply fits in a u64, no lamport addition can overflow:
   * a submission never fails with ArithmeticOverflow, and a withdrawal does
   * only when the deadline itself overflows an i64.
   */
  lemma NoOverflowWithinSupply(s: State, user: Pubkey, pdfHash: seq<Byte>, latitude: seq<Byte>, longitude: seq<Byte>,
                               price: U64, depositAmount: U64, now: I64, rent: U64)
    requires Total(s.lamports) <= U64_MAX
    ensures SubmitData(s, user, pdfHash, latitude, longitude, price, depositAmount, now, rent).status != Failure(ArithmeticOverflow)
    ensures Withdraw(s, user, now).status == Failure(ArithmeticOverflow) ==>
            s.accounts[DataAccountAddress(user)].timestamp + WITHDRAW_DELAY > I64_MAX
  {
    var slot, payer := DataAccountAddress(user), Wallet(user);
    BalancesWithinTotal(s.lamports, payer, slot);
    var due := RentDue(Balance(s.lamports, slot), rent);
    var funded := Transfer(s.lamports, payer, slot, due);
    if funded.Ok? {
      BalancesWithinTotal(funded.value, payer, slot);
    }
  }

  /**
   * A deposit followed, once the lock has expired, by the depositor's
   * withdrawal returns every lamport the depositor put in (rent and deposit)
   * plus whatever the slot held before, removes the slot again, and leaves
   * every other account as it was.
   */
  lemma RoundTrip(s: State, user: Pubkey, pdfHash: seq<Byte>, latitude: seq<Byte>, longitude: seq<Byte>,
                  price: U64, depositAmount: U64, now: I64, rent: U64, later: I64)
    requires SubmitData(s, user, pdfHash, latitude, longitude, price, depositAmount, now, rent).status == Success
    requires later >= now + WITHDRAW_DELAY
    requires Balance(s.lamports, Wallet(user)) + Balance(s.lamports, DataAccountAddress(user)) <= U64_MAX
    ensures var deposited := SubmitData(s, user, pdfHash, latitude, longitude, price, depositAmount, now, rent).state;
            var o := Withdraw(deposited, user, later);
            o.status == Success &&
            o.state.accounts == s.accounts &&
            Balance(o.state.lamports, Wallet(user)) == Balance(s.lamports, Wallet(user)) + Balance(s.lamports, DataAccountAddress(user)) &&
            Balance(o.state.lamports, DataAccountAddress(user)) == 0 &&
            (forall a :: a != DataAccountAddress(user) && a != Wallet(user) ==> Balance(o.state.lamports, a) == Balance(s.lamports, a))
  {
    var slot := DataAccountAddress(user);
    SubmitEffect(s, user, pdfHash, latitude, longitude, price, depositAmount, now, rent);
    var deposited := SubmitData(s, user, pdfHash, latitude, longitude, price, depositAmount, now, rent).state;
    assert deposited.accounts[slot].depositAmount <= Balance(deposited.lamports, slot);
    assert deposited.accounts - {slot} == s.accounts;
  }
}
