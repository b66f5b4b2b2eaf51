/** The keyed-hash algorithms the generator can be asked to use, and the
    keyed hash itself, which is a collaborator supplied from outside. */
module HmacAlgorithms {
  import opened Bits

  /** The six members of the HmacAlgorithm enumeration. */
  datatype HmacAlgorithm =
    | HMACSHA1
    | HMACSHA256
    | HMACSHA384
    | HMACSHA512
    | HMACMD5
    | HMACRIPEMD160

  /** The keyed hash: given the algorithm, the key and the message, the digest.
      The cryptography library computes it (HMAC.Create by the algorithm's
      name, setting Key, then ComputeHash); here it is a parameter. */
  type HmacFunction = (HmacAlgorithm, seq<Byte>, seq<Byte>) -> seq<Byte>

  /** The digest length, in bytes, of each algorithm's underlying hash. */
  function DigestLength(algorithm: HmacAlgorithm): (n: nat)
    ensures 16 <= n <= 64
    ensures n < 19 <==> algorithm == HMACMD5
  {
    match algorithm
    case HMACSHA1 => 20
    case HMACSHA256 => 32
    case HMACSHA384 => 48
    case HMACSHA512 => 64
    case HMACMD5 => 16
    case HMACRIPEMD160 => 20
  }

  /** A keyed hash whose digests have the length of the algorithm asked for,
      as every standard implementation of these six algorithms does. */
  ghost predicate ConformingHmac(hmac: HmacFunction)
  {
    forall algorithm, key, message :: |hmac(algorithm, key, message)| == DigestLength(algorithm)
  }
}
