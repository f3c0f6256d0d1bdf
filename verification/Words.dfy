/** Machine words as numbers: the octets of a 32-bit word, and the word of a number. */
module Words {
  const TWO32: nat := 0x1_0000_0000

  /** The octet of a number below 256. */
  function ToOctet(n: nat): (b: bv8)
    requires n < 256
    ensures b as nat == n
  {
    if n == 0 then 0 else
      Next(ToOctet(n - 1));
      ToOctet(n - 1) + 1
  }

  lemma Next(b: bv8)
    ensures b < 0xFF <==> b as nat < 0xFF
    ensures b < 0xFF ==> (b + 1) as nat == b as nat + 1
  {
  }

  lemma OctetOrder(a: bv8, b: bv8)
    ensures a < b <==> a as nat < b as nat
    ensures a as nat < 256
  {
  }

  lemma OctetRoundTrip(b: bv8)
    ensures b as nat < 256 && ToOctet(b as nat) == b
  {
    OctetOrder(b, b);
    OctetOrder(ToOctet(b as nat), b);
    OctetOrder(b, ToOctet(b as nat));
  }

  /** The word with the given octets, most significant first. */
  function Join(a: bv8, b: bv8, c: bv8, d: bv8): bv32 {
    (a as bv32 << 24) | (b as bv32 << 16) | (c as bv32 << 8) | (d as bv32)
  }

  function OctetOf(w: bv32, k: nat): bv8
    requires k < 4
  {
    match k
    case 0 => (w & 0xFF) as bv8
    case 1 => ((w >> 8) & 0xFF) as bv8
    case 2 => ((w >> 16) & 0xFF) as bv8
    case _ => ((w >> 24) & 0xFF) as bv8
  }

  lemma Joined(a: bv8, b: bv8, c: bv8, d: bv8)
    ensures var w := Join(a, b, c, d);
            OctetOf(w, 3) == a && OctetOf(w, 2) == b && OctetOf(w, 1) == c && OctetOf(w, 0) == d
  {
  }

  lemma Rejoined(w: bv32)
    ensures Join(OctetOf(w, 3), OctetOf(w, 2), OctetOf(w, 1), OctetOf(w, 0)) == w
  {
  }

  function Number(a: nat, b: nat, c: nat, d: nat): nat {
    ((a * 256 + b) * 256 + c) * 256 + d
  }

  function ToWord(i: nat): bv32
    requires i < TWO32
  {
    var q1 := i / 256;
    var q2 := q1 / 256;
    var q3 := q2 / 256;
    Join(ToOctet(q3), ToOctet(q2 % 256), ToOctet(q1 % 256), ToOctet(i % 256))
  }

  function FromWord(w: bv32): nat {
    Number(OctetOf(w, 3) as nat, OctetOf(w, 2) as nat, OctetOf(w, 1) as nat, OctetOf(w, 0) as nat)
  }

  lemma WordRoundTrip(i: nat)
    requires i < TWO32
    ensures FromWord(ToWord(i)) == i
  {
    hide OctetOf, Join, ToOctet;
    var q1 := i / 256;
    var q2 := q1 / 256;
    var q3 := q2 / 256;
    Joined(ToOctet(q3), ToOctet(q2 % 256), ToOctet(q1 % 256), ToOctet(i % 256));
  }

  lemma NumberDigits(a: nat, b: nat, c: nat, d: nat)
    requires a < 256 && b < 256 && c < 256 && d < 256
    ensures var n := Number(a, b, c, d);
            n < TWO32 && n % 256 == d && n / 256 % 256 == c && n / 256 / 256 % 256 == b && n / 256 / 256 / 256 == a
  {
  }

  lemma NumberRoundTrip(w: bv32)
    ensures FromWord(w) < TWO32 && ToWord(FromWord(w)) == w
  {
    hide OctetOf, Join, ToOctet;
    Rejoined(w);
    OctetRoundTrip(OctetOf(w, 0));
    OctetRoundTrip(OctetOf(w, 1));
    OctetRoundTrip(OctetOf(w, 2));
    OctetRoundTrip(OctetOf(w, 3));
    NumberDigits(OctetOf(w, 3) as nat, OctetOf(w, 2) as nat, OctetOf(w, 1) as nat, OctetOf(w, 0) as nat);
    hide Number;
  }

  /** Words below 2^26 are the numbers below 2^26. */
  lemma WordOrder(w: bv32)
    ensures w < 0x400_0000 <==> FromWord(w) < 0x400_0000
  {
    TopOctet(w);
    hide OctetOf;
    OctetOrder(OctetOf(w, 3), 4);
    assert (4 as bv8) as nat == 4;
    OctetOrder(OctetOf(w, 2), 0);
    OctetOrder(OctetOf(w, 1), 0);
    OctetOrder(OctetOf(w, 0), 0);
  }

  lemma TopOctet(w: bv32)
    ensures w < 0x400_0000 <==> OctetOf(w, 3) < 4
  {
  }
}
