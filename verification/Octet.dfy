/** Bytes as numbers below 256. */
module Octet {
  import opened Prelude

  function ByteValue(b: Byte): (n: nat)
    ensures n < 256
  {
    b as int
  }

  function ToByte(n: nat): Byte
    requires n < 256
  {
    n as Byte
  }

  lemma ToByteInverts(b: Byte)
    ensures ToByte(ByteValue(b)) == b
  {
  }

  lemma NextByte(b: Byte)
    requires b != 255
    ensures (b + 1) as int == b as int + 1
  {
  }

  /** Every number below 256 is the value of some byte. */
  lemma {:induction false} ByteWithValue(n: nat) returns (b: Byte)
    requires n < 256
    ensures ByteValue(b) == n
  {
    b := 0;
    if n > 0 {
      var c := ByteWithValue(n - 1);
      ToByteInverts(c);
      ToByteInverts(255);
      NextByte(c);
      b := c + 1;
    }
  }

  lemma ByteValueInverts(n: nat)
    requires n < 256
    ensures ByteValue(ToByte(n)) == n
  {
    var b := ByteWithValue(n);
    ToByteInverts(b);
  }
}
