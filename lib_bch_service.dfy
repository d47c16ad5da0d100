/** The Next.js application's placeholder address service: main-network
    addresses made of 40 random alphanumeric characters, and a check on the
    prefix and the length. `Math.random()` is replaced by supplied draws. */
module LibBchService {
  import opened Common
  import BchService

  const Prefix := "bitcoincash:q"
  const Alphabet := "abcdefghijklmnopqrstuvwxyzABCDEFGHIJKLMNOPQRSTUVWXYZ0123456789"
  const BodyChars := 40

  /** `generateAddress()`: the 13-character prefix followed by 40 characters
      of the 62-letter alphabet, character `13 + i` chosen by draw `i`. */
  method GenerateAddress(draws: seq<real>) returns (result: string)
    requires BodyChars <= |draws| && AllDraws(draws)
    ensures |result| == 53
    ensures result[..13] == Prefix
    ensures forall i :: 13 <= i < 53 ==> result[i] in Alphabet && result[i] == Pick(Alphabet, draws[i - 13])
    ensures ValidateAddress(result)
  {
    assert |Alphabet| == 62;
    result := Prefix;
    for i := 0 to BodyChars
      invariant |result| == 13 + i
      invariant result[..13] == Prefix
      invariant forall j :: 13 <= j < 13 + i ==> result[j] == Pick(Alphabet, draws[j - 13])
    {
      result := result + [Pick(Alphabet, draws[i])];
    }
  }

  /** `validateAddress(address)`; `length` counts UTF-16 code units. */
  predicate ValidateAddress(address: string) {
    StartsWith(address, Prefix) && JsLength(address) > 20
  }

  /** The length test is not redundant: a prefixed string of at most 20
      code units, such as the bare prefix itself, is refused. */
  lemma ShortPrefixedAddressRejected(address: string)
    requires StartsWith(address, Prefix) && JsLength(address) <= 20
    ensures !ValidateAddress(address)
  {
  }

  /** The length is counted in code units, not characters: the prefix
      followed by four characters outside the Basic Multilingual Plane,
      such as emoji, is 17 characters long but at least 21 code units, and
      passes. */
  lemma LengthCountsCodeUnits(rest: string)
    requires |rest| == 4 && forall i :: 0 <= i < |rest| ==> rest[i] as int >= 0x1_0000
    ensures |Prefix + rest| == 17 && JsLength(Prefix + rest) >= 21
    ensures ValidateAddress(Prefix + rest)
  {
    JsLengthAstral(rest);
    JsLengthConcat(Prefix, rest);
    StartsWithConcat(Prefix, rest);
  }

  /** Every address this validator accepts is also accepted by the back end's. */
  lemma AcceptedByBackEnd(address: string)
    requires ValidateAddress(address)
    ensures BchService.ValidateAddress(address)
  {
    assert address[..12] == address[..13][..12] == Prefix[..12] == BchService.MainnetPrefix;
  }

  /** No address of the back end's test network passes this validator: the
      back end's own generated addresses are refused here. */
  lemma TestnetAddressRejected(address: string)
    requires StartsWith(address, BchService.TestnetPrefix)
    ensures !ValidateAddress(address)
  {
    assert address[1] == BchService.TestnetPrefix[1] == 'c';
  }
}
