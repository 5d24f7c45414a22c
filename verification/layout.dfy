/**
 * The escrow record stored in a depositor's slot, and the size of the space
 * `init` allocates for it.
 */
module Layout {
  import opened Types

  /**
   * One escrow record. The three text fields are Rust `String`s, modelled as
   * their UTF-8 bytes.
   */
  datatype DataAccount = DataAccount(
    pdfHash: seq<Byte>,
    latitude: seq<Byte>,
    longitude: seq<Byte>,
    price: U64,
    depositor: Pubkey,
    timestamp: I64,
    depositAmount: U64)

  const DISCRIMINATOR_LEN: nat := 8
  const MAX_PDF_HASH_LEN: nat := 64
  const MAX_LATITUDE_LEN: nat := 32
  const MAX_LONGITUDE_LEN: nat := 32

  /** Bytes allocated for a slot: discriminator, three length-prefixed strings at their maxima, five fixed fields. */
  const LEN: nat := DISCRIMINATOR_LEN
    + 4 + MAX_PDF_HASH_LEN
    + 4 + MAX_LATITUDE_LEN
    + 4 + MAX_LONGITUDE_LEN
    + 8   // price
    + 32  // depositor
    + 8   // timestamp
    + 8   // deposit_amount

  /** Bytes the Borsh encoding of `a` takes, discriminator included. */
  function SerializedSize(a: DataAccount): nat
  {
    DISCRIMINATOR_LEN + 4 + |a.pdfHash| + 4 + |a.latitude| + 4 + |a.longitude| + 8 + 32 + 8 + 8
  }

  /** Whether `a` can be written into the space allocated for a slot. */
  predicate Fits(a: DataAccount)
  {
    SerializedSize(a) <= LEN
  }

  /** The allocated space is 204 bytes, 76 of them taken by the fixed part of the layout. */
  lemma LenValue()
    ensures LEN == 204
    ensures forall a: DataAccount :: SerializedSize(a) == 76 + |a.pdfHash| + |a.latitude| + |a.longitude|
  {
  }

  /** A record fits exactly when its three strings take at most 128 bytes together. */
  lemma FitsExactly(a: DataAccount)
    ensures Fits(a) <==> |a.pdfHash| + |a.latitude| + |a.longitude| <= 128
  {
  }

  /** Strings within their declared maxima always fit. */
  lemma WithinMaximaFits(a: DataAccount)
    requires |a.pdfHash| <= MAX_PDF_HASH_LEN
    requires |a.latitude| <= MAX_LATITUDE_LEN
    requires |a.longitude| <= MAX_LONGITUDE_LEN
    ensures Fits(a)
  {
  }

  /**
   * The maxima bound only the sum: a record whose hash exceeds its own
   * maximum still fits when the coordinates are short.
   */
  lemma LongHashFits(depositor: Pubkey)
    ensures var a := DataAccount(seq(100, _ => 48), [48], [48], 0, depositor, 0, 0);
            |a.pdfHash| > MAX_PDF_HASH_LEN && Fits(a)
  {
  }
}
