/**
 * Node identifiers. The builder names every dropped node `node_<k>`, where `<k>` is the
 * decimal rendering of a counter (a JavaScript template literal over an integer-valued
 * number, so no sign, no leading zeros and no exponent). Parsing an identifier back is
 * what lets the model prove that different counters give different identifiers.
 */
module NodeIds {
  import opened Wrappers

  /** The fixed part of every allocated identifier. */
  const Prefix: string := "node_"

  predicate IsDigit(c: char) {
    '0' <= c <= '9'
  }

  predicate AllDigits(s: string) {
    forall i :: 0 <= i < |s| ==> IsDigit(s[i])
  }

  function Digit(d: nat): (c: char)
    requires d < 10
    ensures IsDigit(c)
  {
    ('0' as int + d) as char
  }

  function DigitValue(c: char): (d: nat)
    requires IsDigit(c)
    ensures d < 10
  {
    c as int - '0' as int
  }

  /** The decimal rendering of `n`, most significant digit first. */
  function Decimal(n: nat): (s: string)
    ensures |s| > 0 && AllDigits(s)
    ensures |s| > 1 ==> s[0] != '0'
  {
    if n < 10 then [Digit(n)] else Decimal(n / 10) + [Digit(n % 10)]
  }

  /** The number a non-empty string of decimal digits denotes. */
  function DigitsValue(s: string): nat
    requires AllDigits(s)
  {
    if s == [] then 0 else 10 * DigitsValue(s[..|s| - 1]) + DigitValue(s[|s| - 1])
  }

  lemma {:induction false} DecimalRoundTrip(n: nat)
    ensures DigitsValue(Decimal(n)) == n
  {
    if n >= 10 {
      DecimalRoundTrip(n / 10);
      var s := Decimal(n);
      assert s[..|s| - 1] == Decimal(n / 10);
    }
  }

  /** The identifier `node_<k>` of the node allocated with counter value `k`. */
  function NodeId(k: nat): string {
    Prefix + Decimal(k)
  }

  /** The counter value an identifier of the form `node_<digits>` carries, if any. */
  function ParseNodeId(id: string): Option<nat> {
    if |id| > |Prefix| && id[..|Prefix|] == Prefix && AllDigits(id[|Prefix|..])
    then Some(DigitsValue(id[|Prefix|..]))
    else None
  }

  lemma ParseNodeIdRoundTrip(k: nat)
    ensures ParseNodeId(NodeId(k)) == Some(k)
  {
    var id := NodeId(k);
    assert id[..|Prefix|] == Prefix;
    assert id[|Prefix|..] == Decimal(k);
    DecimalRoundTrip(k);
  }

  /** Different counter values never render to the same identifier. */
  lemma NodeIdInjective(j: nat, k: nat)
    ensures NodeId(j) == NodeId(k) <==> j == k
  {
    ParseNodeIdRoundTrip(j);
    ParseNodeIdRoundTrip(k);
  }
}
