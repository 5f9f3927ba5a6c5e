/** Bytes and their values. */
module ByteValues {
  /** The byte of that value. */
  function ToByte(t: nat): (b: bv8)
    requires t < 256
  {
    if t == 0 then 0 else Doubled(ToByte(t / 2), t % 2 == 1)
  }

  function Doubled(b: bv8, odd: bool): bv8 { (b << 1) | if odd then 1 else 0 }

  lemma DoubledIs(b: bv8, odd: bool)
    requires b < 128
    ensures Doubled(b, odd) as nat == 2 * (b as nat) + if odd then 1 else 0
  {
    assert ((b << 1) | 1) as nat == 2 * (b as nat) + 1;
    assert (b << 1) as nat == 2 * (b as nat);
    assert (b << 1) | 0 == b << 1;
  }

  lemma BelowHalf(b: bv8)
    ensures b as nat < 128 ==> b < 128
  {
  }

  lemma {:induction false} ToByteIs(t: nat)
    requires t < 256
    ensures ToByte(t) as nat == t
  {
    hide Doubled;
    if t > 0 {
      ToByteIs(t / 2);
      BelowHalf(ToByte(t / 2));
      DoubledIs(ToByte(t / 2), t % 2 == 1);
    }
  }

  lemma RoundTrip(b: bv8)
    ensures b as nat < 256 && (b as nat) as bv8 == b
  {
  }

  /** A conversion to a byte and back. */
  lemma ByteBack(t: nat)
    requires t < 256
    ensures (t as bv8) as nat == t
  {
    ToByteIs(t);
    hide ToByte;
    RoundTrip(ToByte(t));
  }
}
