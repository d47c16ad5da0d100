/** The back end's placeholder address service: random test-network
    addresses and a prefix check. `Math.random()` is replaced by a supplied
    sequence of draws in [0, 1), consumed in order. */
module BchService {
  import opened Common

  const TestnetPrefix := "bchtest:"
  const MainnetPrefix := "bitcoincash:"
  const HexChars := "0123456789abcdef"
  /** Number of random hex characters after the leading 'q'. */
  const BodyDigits := 41

  /** `randomHex(length)`: character `i` is the hex digit draw `i` selects. */
  method RandomHex(length: nat, draws: seq<real>) returns (result: string)
    requires length <= |draws| && AllDraws(draws)
    ensures |result| == length
    ensures forall i :: 0 <= i < length ==> result[i] == Pick(HexChars, draws[i]) && result[i] in HexChars
  {
    result := "";
    for i := 0 to length
      invariant |result| == i
      invariant forall j :: 0 <= j < i ==> result[j] == Pick(HexChars, draws[j])
    {
      result := result + [Pick(HexChars, draws[i])];
    }
  }

  /** `generateAddress()`: the test-network prefix, a 'q', and 41 random hex
      digits, 50 characters in all; every such address passes `ValidateAddress`. */
  method GenerateAddress(draws: seq<real>) returns (address: string)
    requires BodyDigits <= |draws| && AllDraws(draws)
    ensures |address| == 50
    ensures address[..9] == TestnetPrefix + "q"
    ensures forall i :: 9 <= i < 50 ==> address[i] in HexChars && address[i] == Pick(HexChars, draws[i - 9])
    ensures ValidateAddress(address)
  {
    var hex := RandomHex(BodyDigits, draws);
    address := TestnetPrefix + ("q" + hex);
    StartsWithConcat(TestnetPrefix, "q" + hex);
  }

  /** `validateAddress(address)`: the address starts with either network's prefix. */
  predicate ValidateAddress(address: string) {
    StartsWith(address, TestnetPrefix) || StartsWith(address, MainnetPrefix)
  }

  /** An address is valid exactly when it is one of the two prefixes
      followed by anything at all (the empty rest included). */
  lemma ValidateAddressMeaning(address: string)
    ensures ValidateAddress(address) <==>
      exists rest :: address == TestnetPrefix + rest || address == MainnetPrefix + rest
  {
    if ValidateAddress(address) {
      if StartsWith(address, TestnetPrefix) {
        assert address == TestnetPrefix + address[|TestnetPrefix|..];
      } else {
        assert address == MainnetPrefix + address[|MainnetPrefix|..];
      }
    } else {
      forall rest ensures address != TestnetPrefix + rest && address != MainnetPrefix + rest {
        StartsWithConcat(TestnetPrefix, rest);
        StartsWithConcat(MainnetPrefix, rest);
      }
    }
  }

  /** `getAddressBalance(address)`: no chain is consulted; every balance is zero. */
  function GetAddressBalance(address: string): real {
    0.0
  }
}
