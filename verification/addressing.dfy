/**
 * Account addressing. A program-derived address is a function of its seeds
 * (and of the program id, a constant here); the bump search and the hashing
 * behind it are abstracted into the constructor `ProgramAddress`, which is
 * injective in its seeds and never equal to a wallet key.
 */
module Addressing {
  import opened Types

  datatype Address = Wallet(key: Pubkey) | ProgramAddress(seeds: seq<seq<Byte>>)

  /** The ASCII bytes of the seed tag "data_account". */
  const DATA_ACCOUNT_SEED: seq<Byte> := [100, 97, 116, 97, 95, 97, 99, 99, 111, 117, 110, 116]

  /** The slot of `user`: the address derived from the seeds ["data_account", user]. */
  function DataAccountAddress(user: Pubkey): (a: Address)
    ensures !a.Wallet?
    ensures forall v: Pubkey :: v != user ==> a != ProgramAddress([DATA_ACCOUNT_SEED, v])
  {
    ProgramAddress([DATA_ACCOUNT_SEED, user])
  }

  /** Different depositors own different slots, and no slot is anyone's wallet. */
  lemma DataAccountAddressInjective(u: Pubkey, v: Pubkey, w: Pubkey)
    ensures DataAccountAddress(u) == DataAccountAddress(v) <==> u == v
    ensures DataAccountAddress(u) != Wallet(w)
  {
    if DataAccountAddress(u) == DataAccountAddress(v) {
      assert u == DataAccountAddress(u).seeds[1];
    }
  }
}
