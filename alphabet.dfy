/** The 16-symbol alphabet: each character stands for one 4-bit value. */
module Alphabet {
  import opened GeohashTypes

  /** Character `v` of this string encodes the value `v`. Despite the source's name for it,
      this is `0-9a-f`, not the 32-symbol alphabet of standard geohashes. */
  const Codes: string := "0123456789abcdef"

  /** The value a hash character stands for: its position in `Codes`; any other character,
      upper-case hexadecimal digits included, is an `InvalidHashCharacter` error. */
  function HashValueOfChar(c: char): (r: Result<nat>)
    ensures r.Success? <==> c in Codes
    ensures r.Success? ==> r.value < |Codes| && Codes[r.value] == c
    ensures r.Failure? ==> r.error == InvalidHashCharacter(c)
  {
    var ord := c as int;
    if 48 <= ord <= 57 then
      Success(ord - 48)
    else if 97 <= ord <= 102 then
      Success(ord - 87)
    else
      Failure(InvalidHashCharacter(c))
  }

  /** Looking up a code and reading it back gives the value that was looked up. */
  lemma {:induction false} CodeRoundTrip(v: nat)
    requires v < |Codes|
    ensures HashValueOfChar(Codes[v]) == Success(v)
  {
    var r := HashValueOfChar(Codes[v]);
    assert r.Success? && Codes[r.value] == Codes[v];
    CodesDistinct(r.value, v);
  }

  /** No two positions of `Codes` hold the same character. */
  lemma CodesDistinct(i: nat, j: nat)
    requires i < |Codes| && j < |Codes| && Codes[i] == Codes[j]
    ensures i == j
  {
    assert forall k :: 0 <= k < |Codes| ==> Codes[k] as int == if k < 10 then 48 + k else 87 + k;
  }
}
