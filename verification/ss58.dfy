/** Account identities (`Ss58AccountId` in main.ts). The SS58 codec of
    `@polkadot/util-crypto` is a foreign library, so it enters the model as
    a parameter: `decodes(s)` says whether `decodeAddress(s)` returns without
    throwing, and `encode(s)` is `encodeAddress(s)`, `None` when it throws. */
module Ss58 {
  import opened Outcomes
  import opened Errors

  datatype Codec = Codec(decodes: string -> bool, encode: string -> Option<string>)

  /** A codec whose encoder only produces addresses its decoder accepts. */
  ghost predicate Coherent(codec: Codec) {
    forall s :: codec.encode(s).Some? ==> codec.decodes(codec.encode(s).value)
  }

  /** An account identity; `value` is its canonical address string. */
  datatype AccountId = AccountId(value: string)

  /** `new Ss58AccountId(value)`: a decodable address is kept verbatim, one
      that only `encodeAddress` accepts is replaced by its encoding, and any
      other string is rejected. */
  function AccountIdFrom(codec: Codec, value: string): (r: Result<AccountId, MigrationError>)
    ensures codec.decodes(value) ==> r == Success(AccountId(value))
    ensures !codec.decodes(value) && codec.encode(value).Some? ==>
              r == Success(AccountId(codec.encode(value).value))
    ensures r.Failure? <==> !codec.decodes(value) && codec.encode(value).None?
    ensures r.Failure? ==> r.error == InvalidAccountId(value)
  {
    if codec.decodes(value) then Success(AccountId(value))
    else match codec.encode(value)
      case Some(encoded) => Success(AccountId(encoded))
      case None => Failure(InvalidAccountId(value))
  }

  /** With a coherent codec every identity holds a decodable address, so
      normalising a normalised address changes nothing. */
  lemma AccountIdFromIdempotent(codec: Codec, value: string)
    requires Coherent(codec)
    requires AccountIdFrom(codec, value).Success?
    ensures codec.decodes(AccountIdFrom(codec, value).value.value)
    ensures AccountIdFrom(codec, AccountIdFrom(codec, value).value.value) == AccountIdFrom(codec, value)
  {
  }
}
