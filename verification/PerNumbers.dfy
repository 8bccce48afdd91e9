/** Numbers in one or two octets, the high one first. */
module PerNumbers {

  /** The octet of a number, counted up from zero. */
  function ToOctet(n: nat): bv8
    requires n < 0x100
  {
    if n == 0 then 0 else ToOctet(n - 1) + 1
  }

  lemma NextOctet(b: bv8)
    requires b as nat < 255
    ensures (b + 1) as nat == b as nat + 1
  {
  }

  lemma {:induction false} ToOctetValue(n: nat)
    requires n < 0x100
    ensures ToOctet(n) as nat == n
  {
    if n > 0 {
      ToOctetValue(n - 1);
      NextOctet(ToOctet(n - 1));
    }
  }

  function Two(n: nat): (s: seq<bv8>)
    requires n < 0x1_0000
    ensures |s| == 2
  {
    [ToOctet(n / 256), ToOctet(n % 256)]
  }

  function One(n: nat): (s: seq<bv8>)
    requires n < 0x100
    ensures |s| == 1
  {
    [ToOctet(n)]
  }

  /** The number in a field of one or two octets; zero in a missing one. */
  function FieldValue(s: seq<bv8>): nat {
    if s == [] then 0 else if |s| == 1 then s[0] as nat else 256 * s[0] as nat + s[1] as nat
  }

  lemma TwoValue(n: nat)
    requires n < 0x1_0000
    ensures FieldValue(Two(n)) == n
  {
    ToOctetValue(n / 256);
    ToOctetValue(n % 256);
    hide ToOctet;
  }

  lemma OneValue(n: nat)
    requires n < 0x100
    ensures FieldValue(One(n)) == n
  {
    ToOctetValue(n);
    hide ToOctet;
  }
}
