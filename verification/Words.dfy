/** Facts about the bits of 32-bit words. */
module Words {
  type Word = bv32
  type Offset = bv5  // the place of a bit in a word

  const ALL_ONES: Word := 0xffff_ffff

  predicate BitAt(w: Word, s: Offset) {
    (w >> s) & 1 == 1
  }

  /** A number as a place in a word. */
  function Place(p: nat): Offset
    requires p < 32
  {
    p as Offset
  }

  /** Bit p of a word. */
  predicate Bit(w: Word, p: nat)
    requires p < 32
  {
    BitAt(w, Place(p))
  }

  // ----- the masks, by place -----

  function OneAt(o: Offset): Word {
    1 << o
  }

  /** The places below o. */
  function BelowAt(o: Offset): Word {
    (1 << o) - 1
  }

  /** The places from a up to, but not including, b: one mask less another. */
  function BetweenAt(a: Offset, b: Offset): Word {
    ((1 << b) - 1) - ((1 << a) - 1)
  }

  /** The places from a upwards. */
  function FromAt(a: Offset): Word {
    ALL_ONES - ((1 << a) - 1)
  }

  function Or(w: Word, v: Word): Word {
    w | v
  }

  function AndNot(w: Word, v: Word): Word {
    w & !v
  }

  function Minus(w: Word, v: Word): Word {
    w - v
  }

  lemma AddedBack(x: Word, z: Word)
    ensures Plus(x - z, z) == x
  {
  }

  function Plus(w: Word, v: Word): Word {
    w + v
  }

  lemma MinusIs(w: Word, v: Word)
    ensures Minus(w, v) == w - v
  {
  }

  lemma OrAt(w: Word, v: Word, s: Offset)
    ensures BitAt(w | v, s) <==> BitAt(w, s) || BitAt(v, s)
  {
  }

  lemma AndNotAt(w: Word, v: Word, s: Offset)
    ensures BitAt(w & !v, s) <==> BitAt(w, s) && !BitAt(v, s)
  {
  }

  lemma OneBitAt(o: Offset, s: Offset)
    ensures BitAt(1 << o, s) <==> o == s
  {
  }

  lemma BelowBitAt(o: Offset, s: Offset)
    ensures BitAt((1 << o) - 1, s) <==> s < o
  {
  }

  lemma BetweenBitAt(a: Offset, b: Offset, s: Offset)
    requires a <= b
    ensures BitAt(((1 << b) - 1) - ((1 << a) - 1), s) <==> a <= s < b
  {
  }

  lemma FromBitAt(a: Offset, s: Offset)
    ensures BitAt(ALL_ONES - ((1 << a) - 1), s) <==> a <= s
  {
  }

  // ----- places and numbers -----

  lemma PlaceValue(p: nat)
    requires p < 32
    ensures Place(p) as int == p
  {
  }

  lemma PlaceOrder(a: Offset, b: Offset)
    ensures (a < b) == (a as int < b as int)
    ensures (a <= b) == (a as int <= b as int)
  {
  }

  lemma Precedes(p: nat, q: nat)
    requires p < 32 && q < 32
    ensures Place(p) < Place(q) <==> p < q
    ensures Place(p) <= Place(q) <==> p <= q
    ensures Place(p) == Place(q) <==> p == q
  {
    hide Place;
    PlaceValue(p);
    PlaceValue(q);
    PlaceOrder(Place(p), Place(q));
  }

  // ----- the masks, by number -----

  function One(o: nat): Word
    requires o < 32
  {
    OneAt(Place(o))
  }

  function Below(o: nat): Word
    requires o < 32
  {
    BelowAt(Place(o))
  }

  function Between(a: nat, b: nat): Word
    requires a < 32 && b < 32
  {
    BetweenAt(Place(a), Place(b))
  }

  function From(a: nat): Word
    requires a < 32
  {
    FromAt(Place(a))
  }

  lemma OrBit(w: Word, v: Word, p: nat)
    requires p < 32
    ensures Bit(Or(w, v), p) <==> Bit(w, p) || Bit(v, p)
  {
    OrAt(w, v, Place(p));
  }

  lemma AndNotBit(w: Word, v: Word, p: nat)
    requires p < 32
    ensures Bit(AndNot(w, v), p) <==> Bit(w, p) && !Bit(v, p)
  {
    AndNotAt(w, v, Place(p));
  }

  lemma ConstBits(p: nat)
    requires p < 32
    ensures !Bit(0, p) && Bit(ALL_ONES, p)
  {
  }

  lemma OneBit(o: nat, p: nat)
    requires o < 32 && p < 32
    ensures Bit(One(o), p) <==> p == o
  {
    hide Place;
    OneBitAt(Place(o), Place(p));
    Precedes(o, p);
  }

  lemma BelowBit(o: nat, p: nat)
    requires o < 32 && p < 32
    ensures Bit(Below(o), p) <==> p < o
  {
    hide Place;
    BelowBitAt(Place(o), Place(p));
    Precedes(p, o);
  }

  lemma BetweenBit(a: nat, b: nat, p: nat)
    requires a <= b < 32 && p < 32
    ensures Bit(Between(a, b), p) <==> a <= p < b
  {
    hide Place;
    Precedes(a, b);
    BetweenBitAt(Place(a), Place(b), Place(p));
    Precedes(a, p);
    Precedes(p, b);
  }

  lemma FromBit(a: nat, p: nat)
    requires a < 32 && p < 32
    ensures Bit(From(a), p) <==> a <= p
  {
    hide Place;
    FromBitAt(Place(a), Place(p));
    Precedes(a, p);
  }

  lemma MaskDifferencesAt(a: Offset, b: Offset)
    ensures Minus(BelowAt(b), BelowAt(a)) == BetweenAt(a, b)
    ensures Minus(ALL_ONES, BelowAt(a)) == FromAt(a)
  {
  }

  /** The code computes Between and From as differences of masks. */
  lemma MaskDifferences(a: nat, b: nat)
    requires a < 32 && b < 32
    ensures Minus(Below(b), Below(a)) == Between(a, b)
    ensures Minus(ALL_ONES, Below(a)) == From(a)
  {
    hide Place, BelowAt, BetweenAt, FromAt, Minus;
    MaskDifferencesAt(Place(a), Place(b));
  }

  /** Different words differ in some bit. */
  lemma DifferingBit(a: Word, b: Word) returns (p: nat)
    requires a != b
    ensures p < 32 && Bit(a, p) != Bit(b, p)
  {
    var s := DifferingAt(a, b);
    p := s as int;
  }

  lemma DifferingAt(a: Word, b: Word) returns (s: Offset)
    requires a != b
    ensures BitAt(a, s) != BitAt(b, s)
  {
    var d := a ^ b;
    s := 0;
    if d & 0xffff == 0 {
      s, d := s + 16, d >> 16;
    }
    if d & 0xff == 0 {
      s, d := s + 8, d >> 8;
    }
    if d & 0xf == 0 {
      s, d := s + 4, d >> 4;
    }
    if d & 3 == 0 {
      s, d := s + 2, d >> 2;
    }
    if d & 1 == 0 {
      s := s + 1;
    }
  }
}
