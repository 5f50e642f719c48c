/**
 * The wallet-format check both handlers share: a string is taken for an
 * Ethereum/BSC address when it starts with the literal `0x` and is exactly
 * 42 characters long. Nothing checks that the other 40 characters are hex.
 */
module Address {
  import opened Text

  const PREFIX: string := "0x"
  const ADDRESS_LENGTH: nat := 42

  /** `s.startswith("0x") and len(s) == 42`, case-sensitive on the prefix. */
  predicate IsValidAddress(s: string) {
    StartsWith(s, PREFIX) && |s| == ADDRESS_LENGTH
  }

  /** The check looks at the first two characters and the length, and at nothing else. */
  lemma ValidIff(s: string)
    ensures IsValidAddress(s) <==> |s| == ADDRESS_LENGTH && s[0] == PREFIX[0] && s[1] == PREFIX[1]
  {
  }

  /** An upper-case `0X` prefix is rejected whatever follows it. */
  lemma UpperPrefixRejected(s: string)
    requires |s| >= 2 && s[0] == '0' && s[1] == 'X'
    ensures !IsValidAddress(s)
  {
  }

  /** Any 40 characters after `0x` are accepted: there is no hexadecimal check. */
  lemma NoHexCheck(body: string)
    requires |body| == 40
    ensures IsValidAddress(PREFIX + body)
  {
  }

  /** Two examples: the address shown by the start message passes, `0x123` fails. */
  lemma Examples()
    ensures IsValidAddress("0x1f9090aaE28b8a3dCeaDf281B0F12828e676c326")
    ensures !IsValidAddress("0x123")
  {
    ValidIff("0x1f9090aaE28b8a3dCeaDf281B0F12828e676c326");
  }

  /**
   * Lower-casing an accepted address keeps it accepted and gives a canonical
   * key: `0x` is already lower-case and the length does not change.
   */
  lemma LowerKeepsValid(s: string)
    requires IsValidAddress(s)
    ensures IsValidAddress(Lower(s))
    ensures Lower(Lower(s)) == Lower(s)
  {
  }
}
