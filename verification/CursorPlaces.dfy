/** Which places an accepted cursor can name, whatever number a client sends
    (internal/engine/cursor.go). */
module CursorPlaces {
  import opened Cursors

  /** A rounding to the format: of numbers in range its results are numbers of the format, and it keeps
      their order. */
  ghost predicate Rounding(round: real -> real) {
    && Exact(round)
    && (forall x {:trigger round(x)} :: -(MAX_CURSOR_MS as real) <= x <= MAX_CURSOR_MS as real ==> Binary64(round(x)))
    && (forall x, y {:trigger round(x), round(y)} :: x <= y ==> round(x) <= round(y))
  }

  // ---------------------------------------------------------------- where there are places

  lemma Regroup(x: real, a: int, b: int)
    ensures Product(Product(x, a as real), b as real) == Product(x, (a * b) as real)
  {
    assert (a * b) as real == a as real * b as real;
  }

  lemma UpTo(x: real, p: int)
    requires 0.0 <= x <= 1.0 && p >= 1
    ensures 0.0 <= Product(x, p as real) <= p as real
  {
    assert (1.0 - x) * p as real >= 0.0;
  }

  /** Multiplying a fraction by a power of two rounds nothing. */
  lemma ScaleUp(x: real, s: nat)
    requires Binary64(x) && 0.0 <= x <= 1.0 && s <= MAX_SLOT_BITS
    ensures Binary64(Product(x, Pow2(s) as real))
  {
    var m: int, k: nat :| Scaled(x, m, k);
    if k >= s {
      Pow2Adds(s, k - s);
      Regroup(x, Pow2(s), Pow2(k - s));
      assert Scaled(Product(x, Pow2(s) as real), m, k - s);
    } else {
      Pow2Adds(k, s - k);
      WholeProduct(x, m, Pow2(k), Pow2(s - k));
      SignificandIs53Bits();
      Pow2Grows(s, 12);
      UpTo(x, Pow2(s));
      hide Pow2;
      ScaledInteger(m * Pow2(s - k));
    }
  }

  lemma WholeProduct(x: real, m: int, a: int, b: int)
    requires Product(x, a as real) == m as real
    ensures Product(x, (a * b) as real) == (m * b) as real
  {
    Regroup(x, a, b);
    assert (m * b) as real == m as real * b as real;
  }

  lemma ScaledBelow(x: real, b: real)
    requires 0.0 <= x < 1.0 && b >= 1.0
    ensures 0.0 <= Product(x, b) < b
  {
    assert (1.0 - x) * b > 0.0;
  }

  /** A cursor that is accepted names one of the places there are, unless its fraction rounds up to a whole
      millisecond. */
  lemma PlaceInRange(round: real -> real, f: real)
    requires Rounding(round) && CursorOf(round, Finite(f)).Ok?
    ensures var c, g := CursorOf(round, Finite(f)).value, Clamp(f);
      0 <= c.slot && (c.slot <= SlotCount(c.ms) <==> round(g - g.Floor as real) < 1.0)
  {
    var g := Clamp(f);
    FractionRounds(round, g - g.Floor as real, SlotBits(g.Floor));
    hide Rounding, Exact, Binary64, Clamp, Pow2, SlotBits;
    ReadInRange(round, g, Pow2(SlotBits(g.Floor)));
  }

  lemma ReadInRange(round: real -> real, g: real, scale: nat)
    requires scale >= 1 && PlacesOf(round, g, g.Floor, scale as real).Ok?
    requires var frac := round(g - g.Floor as real);
      0.0 <= frac <= 1.0 && round(Product(frac, scale as real)) == Product(frac, scale as real)
    ensures var c := PlacesOf(round, g, g.Floor, scale as real).value;
      c.ms == g.Floor && 0 <= c.slot && (c.slot <= scale - 1 <==> round(g - g.Floor as real) < 1.0)
  {
    var frac := round(g - g.Floor as real);
    if frac == 1.0 {
      assert Product(frac, scale as real) == scale as real;
    } else {
      ScaledBelow(frac, scale as real);
    }
  }

  lemma FractionRounds(round: real -> real, x: real, s: nat)
    requires Rounding(round) && 0.0 <= x <= 1.0 && s <= MAX_SLOT_BITS
    ensures var frac := round(x);
      0.0 <= frac <= 1.0 && round(Product(frac, Pow2(s) as real)) == Product(frac, Pow2(s) as real)
  {
    ScaledInteger(0);
    ScaledInteger(1);
    assert round(0.0) == 0.0 && round(1.0) == 1.0;
    ScaleUp(round(x), s);
  }

  /** The one that does: a negative number so small that one less it rounds to 1 is read as the
      place after the last of the millisecond before the epoch. */
  lemma TinyNegativeIsPastTheLastPlace(round: real -> real, tiny: real)
    requires Exact(round) && Binary64(-tiny) && 0.0 < tiny < 1.0 && round(1.0 - tiny) == 1.0
    ensures CursorOf(round, Finite(-tiny)) == Ok(Cursor(true, -1, SlotCount(-1) + 1))
  {
    assert Clamp(-tiny) == -tiny && (-tiny).Floor == -1;
    assert -tiny - (-1) as real == 1.0 - tiny;
    var scale := Pow2(SlotBits(-1));
    SignificandIs53Bits();
    Pow2Grows(SlotBits(-1), 12);
    ScaledInteger(scale);
    assert Product(1.0, scale as real) == scale as real;
  }

  // ---------------------------------------------------------------- where there are none

  const TOP := 0x10_0000_0000_0000

  /** A millisecond has no places when its magnitude has all the bits. */
  lemma TopBits(ms: int)
    requires SlotCount(ms) == 0
    ensures Abs(ms) >= TOP && SlotBits(ms) == 0
  {
    SignificandIs53Bits();
    Pow2Adds(52, 1);
    assert Pow2(1) == 2;
    BitsMeanPlaces(SlotBits(ms));
    Pow2Grows(52, BitLen(Abs(ms)) - 1);
  }

  lemma BitsMeanPlaces(k: nat)
    ensures k > 0 ==> Pow2(k) > 1
  {
    if k > 0 {
      Pow2Grows(1, k);
    }
  }

  lemma TooFine(f: real, m: int, p: int)
    requires p >= 1 && Product(Product(f, 4.0), p as real) == m as real
    requires f >= TOP as real || f < (1 - TOP) as real
    ensures m > MAX_CURSOR_MS || m < -MAX_CURSOR_MS
  {
    var x := Product(f, 4.0);
    if x > MAX_CURSOR_MS as real {
      assert (x - MAX_CURSOR_MS as real) * p as real > 0.0;
      assert MAX_CURSOR_MS as real * p as real >= MAX_CURSOR_MS as real;
    } else {
      assert (x + MAX_CURSOR_MS as real) * p as real < 0.0;
      assert MAX_CURSOR_MS as real * p as real >= MAX_CURSOR_MS as real;
    }
  }

  /** There the numbers of the format are whole or half. */
  lemma HalvesAtTheTop(f: real) returns (h: int)
    requires Binary64(f) && (f >= TOP as real || f < (1 - TOP) as real)
    ensures 2.0 * f == h as real
  {
    var m: int, k: nat :| Scaled(f, m, k);
    h := if k == 0 then 2 * m else m;
    if k >= 2 {
      Pow2Adds(2, k - 2);
      assert Pow2(2) == 4;
      Regroup(f, 4, Pow2(k - 2));
      TooFine(f, m, Pow2(k - 2));
    } else {
      assert Pow2(1) == 2 && Pow2(0) == 1;
      assert Product(f, 2.0) == 2.0 * f && Product(f, 1.0) == f;
    }
  }

  /** Half a millisecond is no place of one that has none. */
  lemma HalfIsNoPlace(round: real -> real, f: real, h: int)
    requires Exact(round) && 2.0 * f == h as real && PlacesOf(round, f, f.Floor, 1.0).Ok?
    ensures PlacesOf(round, f, f.Floor, 1.0).value.slot == 0
  {
    var frac := f - f.Floor as real;
    var twice := h - 2 * f.Floor;
    assert 2.0 * frac == twice as real && 0 <= twice < 2;
    assert frac == if twice == 0 then 0.0 else 0.5;
    ScaledInteger(0);
    ScaledFraction(1, 1);
    assert Pow2(1) == 2 && Quotient(1.0, 2.0) == 0.5;
    assert Product(0.5, 1.0) == 0.5;
  }

  /** A number of the format that is accepted never names a place in a millisecond that has none, so the
      recovery never divides by a slot count of zero. */
  lemma AcceptedHasPlaces(round: real -> real, f: real)
    requires Exact(round) && Binary64(f) && CursorOf(round, Finite(f)).Ok?
    ensures var c := CursorOf(round, Finite(f)).value; c.slot != 0 ==> SlotCount(c.ms) > 0
  {
    var g := Clamp(f);
    if SlotCount(g.Floor) == 0 {
      TopBits(g.Floor);
      var h := 2 * g.Floor;
      if g == f {
        h := HalvesAtTheTop(f);
      } else {
        assert g == MAX_CURSOR_MS as real || g == (-MAX_CURSOR_MS) as real;
        assert g.Floor as real == g;
      }
      assert Pow2(0) == 1;
      HalfIsNoPlace(round, g, h);
    }
  }
}
