/** Machine types and error kinds shared by the escrow program's model. */
module Types {

  /** One byte of account data or of a Rust `String`'s UTF-8 encoding. */
  newtype Byte = x: int | 0 <= x < 0x100

  const U64_MAX: int := 0xFFFF_FFFF_FFFF_FFFF
  const I64_MIN: int := -0x8000_0000_0000_0000
  const I64_MAX: int := 0x7FFF_FFFF_FFFF_FFFF

  /** Rust `u64`: lamport amounts, prices. */
  type U64 = x: int | 0 <= x <= U64_MAX

  /** Rust `i64`: Unix timestamps from the clock sysvar. */
  type I64 = x: int | I64_MIN <= x <= I64_MAX

  /** A 32-byte public key. */
  type Pubkey = k: seq<Byte> | |k| == 32 witness seq(32, _ => 0)

  /**
   * Every way an instruction of the escrow program can fail. Whatever the
   * kind, the runtime discards every change the instruction made.
   */
  datatype Error =
    | InvalidArgument          // ProgramError::InvalidArgument: an empty string field
    | AccountAlreadyInUse      // `init` on a slot that already holds an account
    | AccountNotInitialized    // the caller's slot holds neither a DataAccount nor lamports
    | AccountOwnedByWrongProgram // the caller's slot holds lamports but no DataAccount
    | TooEarly                 // ProgramError::Custom(0): the time lock has not expired
    | IllegalOwner             // ProgramError::IllegalOwner: caller is not the depositor
    | InsufficientFunds        // a system transfer from a payer with too few lamports (SystemError::ResultWithNegativeLamports)
    | InsufficientCustody      // a label for the panic of the slot's lamport `-=` on underflow
    | ArithmeticOverflow       // a checked u64/i64 addition would overflow: a panic for `timestamp + 10`,
                               // the `+=` and `close`, the runtime's error inside a system transfer
    | AccountDidNotSerialize   // the record does not fit the space allocated by `init`

  datatype Option<T> = None | Some(value: T)

  datatype Result<T> = Ok(value: T) | Err(error: Error)
}
