/** The number a listing answers as `pagination.next`: a millisecond in its integer part and the
    item's place among those of the millisecond in its fraction, packed so that a binary64 number
    holds both exactly (internal/engine/cursor.go). */
module Cursors {

  const FLOAT_BITS := 53
  const MAX_SLOT_BITS := 12
  const MAX_CURSOR_MS := 0x20_0000_0000_0000

  function Pow2(k: nat): (p: nat)
    ensures p >= 1
  {
    if k == 0 then 1 else 2 * Pow2(k - 1)
  }

  function Abs(n: int): nat {
    if n < 0 then -n else n
  }

  function Min(a: int, b: int): int {
    if a < b then a else b
  }

  function Max(a: int, b: int): int {
    if a > b then a else b
  }

  /** The number of bits of a magnitude: the length that holds it and no shorter one. */
  function BitLen(n: nat): (len: nat)
    ensures n < Pow2(len)
    ensures n > 0 ==> len > 0 && Pow2(len - 1) <= n
  {
    if n == 0 then 0 else 1 + BitLen(n / 2)
  }

  function SlotBits(ms: int): (k: nat)
    ensures k <= MAX_SLOT_BITS
  {
    Min(Max(FLOAT_BITS - BitLen(Abs(ms)), 0), MAX_SLOT_BITS)
  }

  function SlotCount(ms: int): nat {
    Pow2(SlotBits(ms)) - 1
  }

  /** The remainder of a division that truncates toward zero: it has the sign of the dividend. */
  function TruncRem(a: int, n: int): int
    requires n > 0
  {
    if a >= 0 then a % n else -((-a) % n)
  }

  /** The idiom `((a%n)+n)%n` over the truncating remainder. */
  function Wrap(a: int, n: int): (r: int)
    requires n > 0
  {
    TruncRem(TruncRem(a, n) + n, n)
  }

  function SlotOf(ms: int, serial: int): (slot: int) {
    var n := SlotCount(ms);
    if n == 0 then 0 else 1 + Wrap(serial, n)
  }

  // ---------------------------------------------------------------- binary64

  function Product(x: real, y: real): real {
    x * y
  }

  function Quotient(x: real, y: real): real
    requires y != 0.0
  {
    x / y
  }

  /** x is m / 2^k with a numerator of at most 53 bits: every binary64 number of magnitude up to
      2^53 has this form (section 3.6 of IEEE 754-2008). */
  ghost predicate Scaled(x: real, m: int, k: nat) {
    k <= 1074 && -MAX_CURSOR_MS <= m <= MAX_CURSOR_MS && Product(x, Pow2(k) as real) == m as real
  }

  ghost predicate Binary64(x: real) {
    exists m: int, k: nat :: Scaled(x, m, k)
  }

  /** A rounding gives back every number the format holds; of the others nothing is assumed. */
  ghost predicate Exact(round: real -> real) {
    forall x {:trigger Binary64(x)} :: Binary64(x) ==> round(x) == x
  }

  /** What `pagination.next` answers for an item, every operation rounded. */
  function PageCursor(round: real -> real, ms: int, serial: int): real {
    var slot := SlotOf(ms, serial);
    if slot == 0 then round(ms as real)
    else
      var places := round(Pow2(SlotBits(ms)) as real);
      if places == 0.0 then 0.0 // a division by zero, which no exact rounding reaches
      else round(round(ms as real) + round(Quotient(round(slot as real), places)))
  }

  /** A client's cursor, read: nothing is cut when it is not set, and slot 0 is a bare timestamp. */
  datatype Cursor = Cursor(isSet: bool, ms: int, slot: int)

  datatype Number = Finite(value: real) | NaN | Infinity(negative: bool)

  datatype Result<+T> = Ok(value: T) | Err

  function Clamp(f: real): real {
    var bound := MAX_CURSOR_MS as real;
    var low := if f > -bound then f else -bound;
    if low < bound then low else bound
  }

  function CursorOf(round: real -> real, f: Number): Result<Cursor> {
    if !f.Finite? then Err
    else
      var g := Clamp(f.value);
      PlacesOf(round, g, g.Floor, Pow2(SlotBits(g.Floor)) as real)
  }

  /** The fraction read as a whole number of places, of which there are `scale` to a millisecond. */
  function PlacesOf(round: real -> real, f: real, ms: int, scale: real): Result<Cursor> {
    var frac := round(f - ms as real);
    if frac == 0.0 then Ok(Cursor(true, ms, 0))
    else
      var places := round(Product(frac, scale));
      if places != places.Floor as real then Err else Ok(Cursor(true, ms, places.Floor))
  }

  // ---------------------------------------------------------------- properties

  lemma WrapIsModulo(a: int, n: int)
    requires n > 0
    ensures Wrap(a, n) == a % n
  {
    var t := TruncRem(a, n);
    if a < 0 {
      ModOfNegation(-a, n);
    }
    ModOfSum(0, if t + n < n then t + n else t, n);
    ModOfSum(1, if t + n < n then t + n else t, n);
  }

  lemma ModOfNegation(b: int, n: int)
    requires n > 0
    ensures (-b) % n == if b % n == 0 then 0 else n - b % n
  {
    var q, m := b / n, b % n;
    Distribute(n, 0, q);
    Distribute(n, 0, q + 1);
    assert b == n * q + m && n * (q + 1) == n * q + n;
    if m == 0 {
      assert -b == n * (0 - q) + 0;
      ModOfSum(0 - q, 0, n);
    } else {
      assert -b == n * (0 - (q + 1)) + (n - m);
      ModOfSum(0 - (q + 1), n - m, n);
    }
  }

  lemma MultipleGrows(n: int, d: int)
    requires n >= 0 && d >= 1
    ensures n * d >= n
  {
  }

  lemma SmallMultiple(n: int, d: int)
    requires n > 0 && -n < n * d < n
    ensures d == 0
  {
    if d >= 1 {
      MultipleGrows(n, d);
    } else if d <= -1 {
      MultipleGrows(n, -d);
      Distribute(n, 0, d);
    }
  }

  lemma Distribute(n: int, a: int, b: int)
    ensures n * (a - b) == n * a - n * b
  {
  }

  lemma ModOfSum(q: int, r: int, n: int)
    requires 0 <= r < n
    ensures (n * q + r) % n == r
  {
    var a := n * q + r;
    var d, m := a / n, a % n;
    assert a == n * d + m && 0 <= m < n;
    Distribute(n, q, d);
    SmallMultiple(n, q - d);
  }

  /** Two numbers of one residue less than a modulus apart are one number. */
  lemma SameResidue(a: int, b: int, n: int)
    requires n > 0 && a % n == b % n && -n < a - b < n
    ensures a == b
  {
    var p, q := a / n, b / n;
    assert a == n * p + a % n && b == n * q + b % n;
    Distribute(n, p, q);
    SmallMultiple(n, p - q);
  }

  /** A place is never 0 where there are places, and says the sequence modulo their number. */
  lemma SlotIsResidue(ms: int, serial: int)
    ensures SlotCount(ms) == 0 ==> SlotOf(ms, serial) == 0
    ensures SlotCount(ms) > 0 ==>
      1 <= SlotOf(ms, serial) <= SlotCount(ms) && SlotOf(ms, serial) - 1 == serial % SlotCount(ms)
  {
    if SlotCount(ms) > 0 {
      WrapIsModulo(serial, SlotCount(ms));
    }
  }

  /** The place count is one less than a power of two, so it is odd wherever it is not zero. */
  lemma SlotCountIsOdd(ms: int)
    ensures SlotCount(ms) > 0 ==> SlotCount(ms) % 2 == 1
  {
  }

  lemma {:induction false} Pow2Adds(a: nat, b: nat)
    ensures Pow2(a + b) == Pow2(a) * Pow2(b)
  {
    if a > 0 {
      Pow2Adds(a - 1, b);
    }
  }

  lemma {:induction false} Pow2Grows(a: nat, b: nat)
    requires a <= b
    ensures Pow2(a) <= Pow2(b)
  {
    if a < b {
      Pow2Grows(a, b - 1);
    }
  }

  lemma SignificandIs53Bits()
    ensures Pow2(12) == 4096
    ensures Pow2(53) == MAX_CURSOR_MS
  {
    assert Pow2(8) == 256;
    Pow2Adds(4, 8);
    Pow2Adds(12, 12);
    Pow2Adds(24, 24);
    Pow2Adds(48, 5);
  }

  /** The packed numerator of a cursor fits the significand: nothing of it is rounded away. */
  lemma NumeratorFits(ms: int, serial: int)
    requires Abs(ms) <= MAX_CURSOR_MS
    ensures var k := SlotBits(ms);
      Abs(ms * Pow2(k) + SlotOf(ms, serial)) < MAX_CURSOR_MS || (k == 0 && Abs(ms) == MAX_CURSOR_MS)
  {
    var k, len, slot := SlotBits(ms), BitLen(Abs(ms)), SlotOf(ms, serial);
    SlotIsResidue(ms, serial);
    assert Pow2(0) == 1;
    SignificandIs53Bits();
    if len > 53 {
      Pow2Grows(53, len - 1);
      assert k == 0 && Abs(ms) == MAX_CURSOR_MS;
    } else {
      Pow2Adds(len, k);
      Pow2Grows(len + k, 53);
      NumeratorBelow(ms, slot, Pow2(k), Pow2(len));
    }
  }

  lemma NumeratorBelow(ms: int, slot: int, p: int, q: int)
    requires Abs(ms) < q && 0 <= slot < p
    ensures Abs(ms * p + slot) < q * p
  {
    MultipleGrows(p, q - Abs(ms));
    Distribute(p, q, Abs(ms));
    assert ms * p == Abs(ms) * p || ms * p == -(Abs(ms) * p);
  }

  lemma RealOrder(x: real, y: real, b: real)
    requires b > 0.0 && x * b < y * b
    ensures x < y
  {
    assert y * b - x * b == (y - x) * b;
  }

  lemma NonNegative(x: real, b: real)
    requires b > 0.0 && x * b >= 0.0
    ensures x >= 0.0
  {
  }

  lemma DivideMultiply(a: real, b: real)
    requires b > 0.0
    ensures Product(Quotient(a, b), b) == a
    ensures 0.0 <= a < b ==> 0.0 <= Quotient(a, b) < 1.0
  {
    var x := a / b;
    assert x * b == a;
    if 0.0 <= a < b {
      NonNegative(x, b);
      assert 1.0 * b == b;
      RealOrder(x, 1.0, b);
    }
  }

  lemma ScaledFraction(m: int, k: nat)
    requires k <= MAX_SLOT_BITS && -MAX_CURSOR_MS <= m <= MAX_CURSOR_MS
    ensures Binary64(Quotient(m as real, Pow2(k) as real))
  {
    DivideMultiply(m as real, Pow2(k) as real);
    assert Scaled(Quotient(m as real, Pow2(k) as real), m, k);
  }

  lemma ScaledInteger(m: int)
    requires -MAX_CURSOR_MS <= m <= MAX_CURSOR_MS
    ensures Binary64(m as real)
  {
    assert Scaled(m as real, m, 0);
  }

  lemma Fraction(a: int, b: int, p: int)
    requires p > 0
    ensures Quotient((a * p + b) as real, p as real) == a as real + Quotient(b as real, p as real)
  {
    var q := p as real;
    var x, y := Quotient((a * p + b) as real, q), Quotient(b as real, q);
    DivideMultiply(b as real, q);
    DivideMultiply((a * p + b) as real, q);
    assert (a as real + y) * q == a as real * q + y * q;
    assert (a * p + b) as real == a as real * q + b as real;
    Cancel(x, a as real + y, q);
  }

  lemma Cancel(x: real, y: real, q: real)
    requires q > 0.0 && x * q == y * q
    ensures x == y
  {
    assert (x - y) * q == 0.0;
  }

  lemma SlotRange(ms: int, serial: int)
    ensures 0 <= SlotOf(ms, serial) < Pow2(SlotBits(ms)) <= 4096
    ensures SlotOf(ms, serial) == 0 <==> Pow2(SlotBits(ms)) == 1
    ensures SlotOf(ms, serial) == 0 <==> SlotBits(ms) == 0
  {
    SlotIsResidue(ms, serial);
    SignificandIs53Bits();
    Pow2Grows(SlotBits(ms), 12);
  }

  /** However the operations round, a cursor is the exact number ms + slot / 2^k. */
  lemma PageCursorIsExact(round: real -> real, ms: int, serial: int)
    requires Exact(round) && Abs(ms) <= MAX_CURSOR_MS
    ensures var p := Pow2(SlotBits(ms));
      PageCursor(round, ms, serial) == Quotient((ms * p + SlotOf(ms, serial)) as real, p as real)
                                    == ms as real + Quotient(SlotOf(ms, serial) as real, p as real)
    ensures Binary64(PageCursor(round, ms, serial))
  {
    hide SlotOf, SlotBits, SlotCount, Pow2, Product, Quotient, Scaled, Binary64;
    var k, slot := SlotBits(ms), SlotOf(ms, serial);
    var p := Pow2(k);
    NumeratorFits(ms, serial);
    SlotRange(ms, serial);
    ScaledInteger(ms);
    ScaledInteger(slot);
    ScaledInteger(p);
    ScaledFraction(slot, k);
    Fraction(ms, slot, p);
    if slot == 0 {
      WholeQuotient(ms);
      WholeQuotient(0);
    } else {
      ScaledFraction(ms * p + slot, k);
    }
  }

  lemma WholeQuotient(m: int)
    ensures Quotient(m as real, 1.0) == m as real
  {
  }

  /** A millisecond with places to tell apart is below the top of the range. */
  lemma CountBelowTop(ms: int)
    requires SlotCount(ms) > 0
    ensures Abs(ms) < MAX_CURSOR_MS
  {
    SignificandIs53Bits();
    Pow2Grows(BitLen(Abs(ms)), 53);
  }

  /** A cursor floors to the millisecond it was made in, before 1970 as after, and reads back as
      that millisecond and the item's place. */
  lemma CursorRoundTrip(round: real -> real, ms: int, serial: int)
    requires Exact(round) && Abs(ms) <= MAX_CURSOR_MS
    ensures PageCursor(round, ms, serial).Floor == ms
    ensures CursorOf(round, Finite(PageCursor(round, ms, serial)))
         == Ok(Cursor(true, ms, SlotOf(ms, serial)))
  {
    hide PageCursor, CursorOf, Exact, Pow2, SlotBits, SlotOf, Quotient, Binary64;
    var k, slot := SlotBits(ms), SlotOf(ms, serial);
    PageCursorIsExact(round, ms, serial);
    SlotRange(ms, serial);
    SlotIsResidue(ms, serial);
    if slot != 0 {
      CountBelowTop(ms);
    }
    SignificandIs53Bits();
    Pow2Grows(k, 12);
    ScaledFraction(slot, k);
    ReadBack(round, ms, slot, Pow2(k) as real, Quotient(slot as real, Pow2(k) as real));
  }

  lemma ReadBack(round: real -> real, ms: int, slot: int, scale: real, frac: real)
    requires Exact(round) && scale == Pow2(SlotBits(ms)) as real && 0 <= slot <= MAX_CURSOR_MS
    requires 0.0 < scale && slot as real < scale && frac == Quotient(slot as real, scale) && Binary64(frac)
    requires -MAX_CURSOR_MS <= ms <= MAX_CURSOR_MS && (slot != 0 ==> ms < MAX_CURSOR_MS)
    ensures var f := ms as real + frac;
      f.Floor == ms && CursorOf(round, Finite(f)) == Ok(Cursor(true, ms, slot))
  {
    DivideMultiply(slot as real, scale);
    ScaledInteger(slot);
    InClamp(ms, slot, frac, scale);
    ReadPlaces(round, ms, slot, frac, scale);
  }

  lemma InClamp(ms: int, slot: int, frac: real, scale: real)
    requires 0.0 <= frac < 1.0 && Product(frac, scale) == slot as real
    requires -MAX_CURSOR_MS <= ms <= MAX_CURSOR_MS && (slot != 0 ==> ms < MAX_CURSOR_MS)
    requires scale > 0.0
    ensures Clamp(ms as real + frac) == ms as real + frac
  {
    if slot == 0 {
      ZeroFraction(frac, scale);
    }
  }

  lemma ZeroFraction(x: real, b: real)
    requires b > 0.0 && x * b == 0.0
    ensures x == 0.0
  {
  }

  lemma ReadPlaces(round: real -> real, ms: int, slot: int, frac: real, scale: real)
    requires scale > 0.0 && Product(frac, scale) == slot as real
    requires round(frac) == frac && round(slot as real) == slot as real
    ensures PlacesOf(round, ms as real + frac, ms, scale) == Ok(Cursor(true, ms, slot))
  {
    assert ms as real + frac - ms as real == frac;
    var places := round(Product(frac, scale));
    assert places == slot as real;
    assert places.Floor == slot;
    if frac == 0.0 {
      assert slot as real == 0.0;
      assert slot == 0;
    } else if slot == 0 {
      ZeroFraction(frac, scale);
    }
  }
}
