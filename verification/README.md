# Escrow ledger of `your_program_name`, modelled in Dafny

The Solana program `your_program_name` keeps one escrow slot per depositor. The
slot lives at the program-derived address of the seeds `["data_account", user]`.
`submit_data` opens the slot. It stores a `DataAccount` record: a PDF hash, a
latitude, a longitude, a price, the depositor, the clock time and the deposit
amount. It also moves the deposit from the caller's wallet into the slot.
`withdraw` refuses for ten seconds after the deposit, and refuses anyone but
the recorded depositor. After that it moves the deposit back, then closes the
slot, which hands the remaining rent lamports to the depositor.

Layout of the model:

- `types.dfy` (`Types`): bytes, `u64`/`i64` ranges, public keys, error kinds.
- `addressing.dfy` (`Addressing`): addresses, and the slot derived from a user key.
- `lamports.dfy` (`Lamports`): lamport balances per address and their total supply. Checked debit and credit, and the system program's transfer.
- `layout.dfy` (`Layout`): the `DataAccount` record, `DataAccount::LEN`, and when a record fits.
- `escrow.dfy` (`Escrow`): each instruction as a function from the old ledger state to a status and the new state, with its account constraints included.
- `properties.dfy` (`EscrowProperties`): the promises of the program as lemmas over those functions.
- `ledger.dfy` (`EscrowProgram`): class `Ledger`, whose fields are the balances and records. Its methods update them step by step in the handlers' order and are proved equal to the `Escrow` functions. It ends with the deposit/withdraw scenario as a checked client.

Modelling choices:

- A failed instruction changes nothing, because the runtime discards its writes. The methods restore the saved fields, and the functions return the old state with the error.
- `submit_data` checks in Anchor's order. First the `init` constraint runs. A slot with no lamports goes through `create_account`, which refuses a slot in use before it moves anything. A slot that holds lamports is first topped up by the payer to the rent-exempt minimum, and only then does `allocate` refuse a slot in use. Then the handler checks the strings, writes the record and transfers the deposit. Last, the record is serialized into the 204 allocated bytes on exit.
- `withdraw` first needs the caller's slot to hold a record. The checked deadline `timestamp + 10` comes next. Then come the time lock, the owner check, the checked `-=` and `+=`, and the close. The close happens twice: once in the handler (`lib.rs:220`) and once through the `close = user` constraint on exit (`lib.rs:249`). The second close moves nothing (`CloseIdempotent`).
- Overflow checks are taken to be on, as in Anchor's workspace profile. So the deadline addition and the lamport additions abort instead of wrapping. The subtraction at `lib.rs:207` aborts too. Some of the model's error names are labels for these aborts, not errors the program returns:
  - `InsufficientCustody` stands for the panic of that subtraction.
  - `ArithmeticOverflow` stands for the panic of `timestamp + 10`, of the `+=` at `lib.rs:212` and of the addition inside `close`. Inside a system transfer, it is the runtime's overflow error.
  - `InsufficientFunds` stands for the system program's `SystemError::ResultWithNegativeLamports`, its custom error 1.
- The clock time and the rent-exempt minimum are parameters of the instructions.

What the code does, as the model has it:

- The three strings are not bounded one by one. Only the serialized record must fit into `DataAccount::LEN`, so the three lengths must sum to at most 128 bytes. A 100-byte hash fits beside short coordinates (`Layout.LongHashFits`).
- An occupied slot is reported before an empty string, because the `init` constraint runs before the handler. A slot that holds less than the rent-exempt minimum is an exception: if the payer cannot cover the top-up, the failed transfer is reported instead (`EscrowProperties.SubmitOnOpenSlot`).
- The time lock fails with `ProgramError::Custom(0)`, modelled as `TooEarly`. The owner check fails with `ProgramError::IllegalOwner`. In any state reachable through the two instructions, the owner check never fires (`EscrowProperties.ConsistentWithdrawGuards`). The slot a caller names is always their own, and its record always names them.
- A withdrawal from a slot that holds no record fails with `AccountNotInitialized` when the slot is empty. It fails with `AccountOwnedByWrongProgram` when someone has sent lamports to the slot's address (`EscrowProperties.WithdrawNoSlot`).

## Model

| member | source | states |
|---|---|---|
| Addressing.DataAccountAddress | programs/learn-solana-contract/src/lib.rs:230-236 | a user's slot is never a wallet, and no other user's seeds derive it |
| Addressing.DataAccountAddressInjective | programs/learn-solana-contract/src/lib.rs:245-250 | two users share a slot only if they are the same user, and no slot is a wallet |
| Lamports.Debit | programs/learn-solana-contract/src/lib.rs:206-207 | the `-=` on the slot's lamports succeeds exactly when no underflow occurs; it lowers that balance by the amount and the total supply by the same, and touches no other account |
| Lamports.Credit | programs/learn-solana-contract/src/lib.rs:208-212 | the `+=` on the caller's lamports succeeds exactly when no u64 overflow occurs; it raises that balance and the total by the amount and touches no other account |
| Lamports.Transfer | programs/learn-solana-contract/src/lib.rs:174-182 | the system transfer fails with InsufficientFunds exactly when the payer holds less than the amount, with ArithmeticOverflow exactly when the recipient would overflow, and succeeds otherwise; on success the payer loses the amount, the recipient gains it, nobody else changes and the total supply is conserved |
| Layout.LenValue | programs/learn-solana-contract/src/lib.rs:266-278 | `DataAccount::LEN` is 204, and a serialized record takes 76 bytes plus its three string lengths |
| Layout.FitsExactly | programs/learn-solana-contract/src/lib.rs:255-278 | a record fits the allocated space exactly when its three strings total at most 128 bytes |
| Layout.WithinMaximaFits | programs/learn-solana-contract/src/lib.rs:267-269 | strings within 64, 32 and 32 bytes always fit |
| Layout.LongHashFits | programs/learn-solana-contract/src/lib.rs:267-278 | a hash longer than its 64-byte maximum is still accepted when the coordinates are short |
| Escrow.RentDue | programs/learn-solana-contract/src/lib.rs:230-236 | `init` tops the slot up to at least the rent-exempt minimum, and only up to it when it adds anything |
| Escrow.SubmitData | programs/learn-solana-contract/src/lib.rs:149-186 | a failed submission leaves the state unchanged; a successful one happens only on a free slot, stores the record built from the arguments, the caller and the clock, and conserves the total supply |
| Escrow.Close | programs/learn-solana-contract/src/lib.rs:220 | closing succeeds exactly when the destination can take all of the account's lamports without u64 overflow; it then removes the record, sets the account to zero lamports and credits the destination with all of them, conserving the total; its only failure is that overflow, which changes nothing |
| Escrow.Withdraw | programs/learn-solana-contract/src/lib.rs:188-223 | a failed withdrawal changes nothing; a successful one needs the caller's slot, an expired time lock and the caller as depositor, removes the slot, pays its whole balance to the caller, leaves other accounts alone and conserves the total |
| EscrowProperties.SubmitOnOpenSlot | programs/learn-solana-contract/src/lib.rs:230-236 | submitting on an occupied slot always fails and leaves the existing record and all balances unchanged; the error is AccountAlreadyInUse when the slot is empty or `init`'s top-up transfer succeeds (always so when the slot holds at least the rent), and otherwise the top-up transfer's error |
| EscrowProperties.SubmitEmptyField | programs/learn-solana-contract/src/lib.rs:157-161 | an empty hash, latitude or longitude always makes the submission fail with no change; once the slot is allocated the error is InvalidArgument, and InvalidArgument arises only from an empty string |
| EscrowProperties.SubmitEffect | programs/learn-solana-contract/src/lib.rs:163-182 | after a successful submission the record holds the arguments verbatim, the caller as depositor and the clock as timestamp; the caller is debited exactly the rent due plus the deposit, the slot is credited the same, and it holds at least rent plus deposit |
| EscrowProperties.SubmitSucceedsExactly | programs/learn-solana-contract/src/lib.rs:149-186 | a submission succeeds if and only if the slot is free, the caller can pay rent and deposit, the slot cannot overflow, no string is empty and the record fits |
| EscrowProperties.WithdrawTooEarly | programs/learn-solana-contract/src/lib.rs:193-197 | before timestamp + 10 a withdrawal fails with TooEarly whoever calls, and nothing changes |
| EscrowProperties.WithdrawNotDepositor | programs/learn-solana-contract/src/lib.rs:199-203 | after the lock, a caller who is not the recorded depositor gets IllegalOwner and nothing changes |
| EscrowProperties.WithdrawNoSlot | programs/learn-solana-contract/src/lib.rs:245-251 | a caller without an open slot gets AccountNotInitialized when the slot is empty, and AccountOwnedByWrongProgram when it holds lamports; nothing changes |
| EscrowProperties.WithdrawSucceedsExactly | programs/learn-solana-contract/src/lib.rs:188-223 | in a consistent state whose supply fits in a u64, a withdrawal succeeds if and only if the caller's slot is open, its deadline does not overflow, and the deadline has passed |
| EscrowProperties.CloseIdempotent | programs/learn-solana-contract/src/lib.rs:220 | closing an already closed slot succeeds and changes nothing, so the second close by the `close = user` constraint is harmless |
| EscrowProperties.WithdrawTwice | programs/learn-solana-contract/src/lib.rs:245-250 | after a successful withdrawal, another withdrawal by the same caller fails because the slot is gone |
| EscrowProperties.SubmitKeepsConsistent | programs/learn-solana-contract/src/lib.rs:163-182 | a submission keeps every record in its own depositor's slot and keeps every deposit backed by its slot's lamports |
| EscrowProperties.WithdrawKeepsConsistent | programs/learn-solana-contract/src/lib.rs:205-220 | a withdrawal keeps the same invariant |
| EscrowProperties.ConsistentWithdrawGuards | programs/learn-solana-contract/src/lib.rs:199-207 | under that invariant a withdrawal never fails with IllegalOwner and never trips the underflow guard |
| EscrowProperties.NoOverflowWithinSupply | programs/learn-solana-contract/src/lib.rs:194-212 | while the total supply fits in a u64, a submission never overflows, and a withdrawal overflows only when timestamp + 10 exceeds the i64 range |
| EscrowProperties.RoundTrip | programs/learn-solana-contract/src/lib.rs:149-223 | a deposit and the depositor's withdrawal after the lock return the depositor's rent and deposit in full, remove the slot again and leave every other account unchanged |
| EscrowProgram.Ledger.SubmitData | programs/learn-solana-contract/src/lib.rs:149-186 | the step-by-step submission, with its rollback on failure, ends in exactly the status and state that Escrow.SubmitData gives |
| EscrowProgram.Ledger.Close | programs/learn-solana-contract/src/lib.rs:220 | the in-place close ends in exactly the state that Escrow.Close gives |
| EscrowProgram.Ledger.Withdraw | programs/learn-solana-contract/src/lib.rs:188-223 | the step-by-step withdrawal, with its in-place `-=`, `+=` and the two closes, ends in exactly the status and state that Escrow.Withdraw gives |

## Left out

- The `token_minter` program (`init_token`, `mint_tokens` and their account structs). It only wraps calls to the Metaplex metadata program and the SPL token program, whose behaviour is not part of this model.
- Address derivation. The SHA-256 hashing and the bump search are replaced by an injective constructor of the seeds. A derivation that finds no bump is not modelled.
- `Clock::get().unwrap()`. The time is a parameter, and a failed clock read is not modelled.
- The rent-exempt minimum for 204 bytes. It is a parameter (`rent`) and is not computed from the rent sysvar.
- `msg!` log lines.
- Signature verification. The caller's key is taken as authenticated.
- Borsh encoding. Only the serialized size is modelled, not the bytes. The 8-byte discriminator is only counted.
- Strings are their UTF-8 bytes. Whether they are valid UTF-8 is not modelled.
- Anchor's check that the passed slot address matches the seeds. The model looks the caller's slot up by its derived address. Of the owner and discriminator checks, the model keeps only the distinction between an empty slot and one holding stray lamports. An account of another program at that address is not modelled.
- Escrow.SubmitData: treats any slot that holds a record as "in use". A slot that holds lamports but no data is topped up, as Anchor does, and so is a slot in use that holds lamports, before it is refused. Other program-owned or data-carrying accounts at that address are not modelled.
- Failures of `try_borrow_mut_lamports` are not modelled.
- The runtime's rent-state check is not modelled. A submission that leaves the caller's wallet below its rent-exempt minimum, but not empty, is reported as Success. The runtime rejects that transaction with InsufficientFundsForRent.
- Lamports that other programs send to a slot while it is open are not modelled. Such lamports would go to the depositor on close.
