/**
 A head word and its decoded form. The size of a chunk is a multiple of 8, so its three low bits
 are free for the flags PINUSE_BIT (1), CINUSE_BIT (2) and FLAG4_BIT (4).
 */
module HeadWord {
  function SizeBits(w: bv64): bv64 { w & !7 }

  predicate Pinuse(w: bv64) { w & 1 != 0 }

  predicate Cinuse(w: bv64) { w & 2 != 0 }

  predicate IsSize(s: bv64) { s & 7 == 0 }

  /** `is_inuse`. */
  predicate IsInuse(w: bv64) { w & 3 != 1 }

  function Flags(cinuse: bool, pinuse: bool): bv64 {
    if cinuse then if pinuse then 3 else 2 else if pinuse then 1 else 0
  }

  /** The word of a chunk with these size bits and flags. */
  function Pack(s: bv64, cinuse: bool, pinuse: bool): bv64 {
    Joined(s, Flags(cinuse, pinuse))
  }

  function Joined(s: bv64, f: bv64): bv64 { s | f }

  /** Nothing is lost in a head word. */
  lemma PackRoundTrip(s: bv64, cinuse: bool, pinuse: bool)
    requires IsSize(s)
    ensures var w := Pack(s, cinuse, pinuse);
      SizeBits(w) == s && (Cinuse(w) <==> cinuse) && (Pinuse(w) <==> pinuse)
  {
    hide SizeBits, Pinuse, Cinuse, IsSize, Flags, Joined, Small;
    FlagBits(cinuse, pinuse);
    LowBits(s, Flags(cinuse, pinuse));
    FlagsOfWord(s, Flags(cinuse, pinuse));
  }

  predicate Small(f: bv64) { f <= 3 }

  lemma FlagBits(cinuse: bool, pinuse: bool)
    ensures Small(Flags(cinuse, pinuse))
    ensures (Pinuse(Flags(cinuse, pinuse)) <==> pinuse) && (Cinuse(Flags(cinuse, pinuse)) <==> cinuse)
  {
  }

  lemma FlagsOfWord(s: bv64, f: bv64)
    requires IsSize(s)
    ensures (Pinuse(Joined(s, f)) <==> Pinuse(f)) && (Cinuse(Joined(s, f)) <==> Cinuse(f))
  {
  }

  lemma LowBits(s: bv64, f: bv64)
    requires IsSize(s) && Small(f)
    ensures SizeBits(Joined(s, f)) == s
  {
  }

  lemma AndOr(s: bv64, f: bv64, m: bv64)
    requires IsSize(s) && m <= 3
    ensures (s | f) & m == f & m
  {
  }

  lemma FlagTable(cinuse: bool, pinuse: bool)
    ensures var f := Flags(cinuse, pinuse);
      && f | 1 == Flags(cinuse, true) && f & !1 == Flags(cinuse, false) && (f & 1) | 2 == Flags(true, pinuse)
      && f & 3 == f && (f == 1 <==> !cinuse && pinuse) && (f == 3 <==> cinuse && pinuse)
  {
  }

  /** `head |= PINUSE_BIT` does to the word what the model does to the head. */
  lemma SetPinuseOnWord(s: bv64, cinuse: bool, pinuse: bool)
    ensures Pack(s, cinuse, pinuse) | 1 == Pack(s, cinuse, true)
  {
    SetPinuse(s, Flags(cinuse, pinuse));
  }

  /** `head &= ~PINUSE_BIT`. */
  lemma ClearPinuseOnWord(s: bv64, cinuse: bool, pinuse: bool)
    requires IsSize(s)
    ensures Pack(s, cinuse, pinuse) & !1 == Pack(s, cinuse, false)
  {
    hide Flags, IsSize;
    var f := Flags(cinuse, pinuse);
    FlagTable(cinuse, pinuse);
    ClearPinuse(s, f);
  }

  /** `set_inuse`: `(head & PINUSE_BIT) | s | CINUSE_BIT`. */
  lemma SetInuseOnWord(s: bv64, s': bv64, cinuse: bool, pinuse: bool)
    requires IsSize(s)
    ensures (Pack(s, cinuse, pinuse) & 1) | s' | 2 == Pack(s', true, pinuse)
  {
    AndOr(s, Flags(cinuse, pinuse), 1);
    KeepPinuse(s', Flags(cinuse, pinuse) & 1);
  }

  /** `is_inuse`, and the test for both bits. */
  lemma TestsOnWords(s: bv64, cinuse: bool, pinuse: bool)
    requires IsSize(s)
    ensures IsInuse(Pack(s, cinuse, pinuse)) <==> cinuse || !pinuse
    ensures Pack(s, cinuse, pinuse) & 3 == 3 <==> cinuse && pinuse
  {
    hide Flags, IsSize;
    FlagTable(cinuse, pinuse);
    AndOr(s, Flags(cinuse, pinuse), 3);
  }

  lemma SetPinuse(s: bv64, f: bv64)
    ensures (s | f) | 1 == s | (f | 1)
  {
  }

  lemma ClearPinuse(s: bv64, f: bv64)
    requires IsSize(s)
    ensures (s | f) & !1 == s | (f & !1)
  {
  }

  lemma KeepPinuse(s: bv64, f: bv64)
    ensures f | s | 2 == s | (f | 2)
  {
  }
}
