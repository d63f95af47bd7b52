/** What a cursor names, and when it still names it: the sequence number recovered from a place and
    a listing, with the item there, with it deleted, and past the ceiling. */
module Recovery {
  import opened Cursors
  import opened Pages

  function CursorTo(x: Entry): (c: Cursor)
    ensures Readable(c)
  {
    SlotIsResidue(x.ms, x.serial);
    Cursor(true, x.ms, SlotOf(x.ms, x.serial))
  }

  /** The bound a cursor makes in a listing cuts it where the item itself would. */
  ghost predicate Faithful(x: Entry, es: seq<Entry>) {
    var b := BoundOf(CursorTo(x), es);
    forall e :: e in es ==> (OlderThan(b, e) <==> Newer(x, e)) && (NewerThan(b, e) <==> Newer(e, x))
  }

  /** Items of one millisecond lie fewer sequence numbers apart than it has places. */
  ghost predicate BelowCeiling(es: seq<Entry>) {
    forall a, b {:trigger ShareNoPlace(a, b)} :: a in es && b in es ==> ShareNoPlace(a, b)
  }

  predicate ShareNoPlace(a: Entry, b: Entry) {
    a.ms == b.ms ==> Abs(a.serial - b.serial) < Max(SlotCount(a.ms), 1)
  }

  /** Items of one millisecond lie at most half its places apart. */
  ghost predicate WithinHalf(items: set<Entry>) {
    forall a, b {:trigger HalfApart(a, b)} :: a in items && b in items ==> HalfApart(a, b)
  }

  predicate HalfApart(a: Entry, b: Entry) {
    a.ms == b.ms ==> 2 * Abs(a.serial - b.serial) <= SlotCount(a.ms)
  }

  // ---------------------------------------------------------------- the candidate

  lemma ResidueFrom(lo: int, s: int, n: int)
    requires n > 0
    ensures var first := lo + Wrap(s % n - lo, n);
      lo <= first < lo + n && first % n == s % n
  {
    var a := s % n - lo;
    WrapIsModulo(a, n);
    var q, r := a / n, a % n;
    Distribute(n, 0, q);
    assert a == n * q + r && 0 <= r < n;
    assert lo + r == n * (0 - q) + s % n;
    ModOfSum(0 - q, s % n, n);
    hide Wrap;
  }

  lemma NotBelow(a: int, b: int, n: int)
    requires n > 0 && a % n == b % n && a - b > -n
    ensures a >= b
  {
    if a < b {
      SameResidue(a, b, n);
    }
  }

  function First(s: int, n: int, lo: int): (first: int)
    requires n > 0
    ensures lo <= first < lo + n && first % n == s % n
    ensures s >= lo ==> first <= s
    ensures lo <= s < lo + n ==> first == s
    ensures s < lo <= s + n ==> first == s + n
  {
    ResidueFrom(lo, s, n);
    var first := lo + Wrap(s % n - lo, n);
    ModOfShift(s, n);
    assert s >= lo ==> first <= s by {
      if s >= lo {
        NotBelow(s, first, n);
      }
    }
    assert lo <= s < lo + n ==> first == s by {
      if lo <= s < lo + n {
        SameResidue(first, s, n);
      }
    }
    assert s < lo <= s + n ==> first == s + n by {
      if s < lo <= s + n {
        SameResidue(first, s + n, n);
      }
    }
    first
  }

  lemma ModOfShift(s: int, n: int)
    requires n > 0
    ensures (s + n) % n == s % n
  {
    var q, r := s / n, s % n;
    Distribute(n, q, -1);
    ModOfSum(q + 1, r, n);
  }

  /** The recovered number when the named one is s, in terms of the run and nothing else. */
  lemma RecoverCases(ms: int, s: int, run: Run)
    requires var n := SlotCount(ms); n > 0 && run.Run?
    ensures var n := SlotCount(ms);
      var first := First(s, n, run.lo);
      Recover(SlotOf(ms, s), n, run) ==
        if first > run.hi && run.lo - (first - n) < first - run.hi then first - n else first
  {
    SlotIsResidue(ms, s);
  }

  /** Whether what is left of a run says on which side of it a deleted item was: below it when that
      end is the nearer by the count, above it when the other is. */
  predicate NearEnough(s: int, n: int, run: Run) {
    run.Run? ==>
      (s < run.lo ==> (run.lo - s) + (run.hi - s) < n) &&
      (s > run.hi ==> (s - run.lo) + (s - run.hi) <= n)
  }

  ghost predicate SpanBelow(s: int, n: int, run: Run) {
    run.Run? ==> Max(run.hi, s) - Min(run.lo, s) < n
  }

  /** A named number within a slot count of the run is recovered exactly when it is near enough,
      and otherwise comes out beyond the opposite end. */
  lemma RecoverExactly(ms: int, s: int, run: Run)
    requires var n := SlotCount(ms); n > 0 && run.Run? && run.lo <= run.hi && SpanBelow(s, n, run)
    ensures var n := SlotCount(ms);
      var r := Recover(SlotOf(ms, s), n, run);
      (NearEnough(s, n, run) ==> r == s) &&
      (!NearEnough(s, n, run) ==> if s < run.lo then r > run.hi else s > run.hi && r < run.lo)
  {
    RecoverCases(ms, s, run);
  }

  // ---------------------------------------------------------------- placing every item

  /** The ends of a run are items of the listing. */
  lemma RunEnds(ms: int, es: seq<Entry>) returns (oldest: Entry, newest: Entry)
    requires RunOf(es, ms).Run?
    ensures oldest in es && oldest.ms == ms && oldest.serial == RunOf(es, ms).lo
    ensures newest in es && newest.ms == ms && newest.serial == RunOf(es, ms).hi
    ensures forall e :: e in es && e.ms == ms ==> oldest.serial <= e.serial <= newest.serial
  {
    RunReaches(es, ms);
    oldest :| oldest in es && oldest.ms == ms && oldest.serial == RunOf(es, ms).lo;
    newest :| newest in es && newest.ms == ms && newest.serial == RunOf(es, ms).hi;
  }

  /** Where a millisecond has no places the cursor is its timestamp, which names its one item. */
  lemma BareTimestamp(x: Entry, es: seq<Entry>)
    requires SlotCount(x.ms) == 0
    requires forall e :: e in es && e.ms == x.ms ==> e.serial == x.serial
    ensures Faithful(x, es)
  {
    SlotIsResidue(x.ms, x.serial);
  }

  lemma FaithfulIfRecovered(x: Entry, es: seq<Entry>)
    requires SlotCount(x.ms) > 0
    requires RunOf(es, x.ms).Run? ==> BoundOf(CursorTo(x), es).serial == x.serial
    ensures Faithful(x, es)
  {
    SlotIsResidue(x.ms, x.serial);
    RunReaches(es, x.ms);
  }

  /** Deleted or not, an item within a slot count of its run is placed right if and only if it is
      near enough the end it was beyond. */
  lemma DeletedItemExactly(x: Entry, es: seq<Entry>)
    requires SlotCount(x.ms) > 0
    requires SpanBelow(x.serial, SlotCount(x.ms), RunOf(es, x.ms))
    ensures Faithful(x, es) <==> NearEnough(x.serial, SlotCount(x.ms), RunOf(es, x.ms))
  {
    var n, run := SlotCount(x.ms), RunOf(es, x.ms);
    SlotIsResidue(x.ms, x.serial);
    if run.Run? {
      var oldest, newest := RunEnds(x.ms, es);
      RecoverExactly(x.ms, x.serial, run);
    }
    if NearEnough(x.serial, n, run) {
      FaithfulIfRecovered(x, es);
    } else {
      var e :| e in es && e.ms == x.ms && e.serial == run.lo;
      assert OlderThan(BoundOf(CursorTo(x), es), e) != Newer(x, e);
    }
  }

  /** Half the places between any two, the named item included, is near enough: what makes it so at
      the very half is that the places are odd in number. */
  lemma HalfIsNearEnough(x: Entry, es: seq<Entry>, items: set<Entry>)
    requires WithinHalf(items) && x in items && forall e :: e in es ==> e in items
    requires SlotCount(x.ms) > 0
    ensures var n, run := SlotCount(x.ms), RunOf(es, x.ms);
      SpanBelow(x.serial, n, run) && NearEnough(x.serial, n, run)
  {
    if RunOf(es, x.ms).Run? {
      var a, b := RunEnds(x.ms, es);
      assert HalfApart(x, a) && HalfApart(x, b) && HalfApart(a, b);
      SlotCountIsOdd(x.ms);
      OddHalf(x.serial, SlotCount(x.ms), RunOf(es, x.ms));
    }
  }

  lemma OddHalf(s: int, n: int, run: Run)
    requires n > 0 && n % 2 == 1 && run.Run? && run.lo <= run.hi
    requires 2 * Abs(s - run.lo) <= n && 2 * Abs(s - run.hi) <= n && 2 * (run.hi - run.lo) <= n
    ensures SpanBelow(s, n, run) && NearEnough(s, n, run)
  {
  }

  /** The half ceiling: when the run with the named item in it spans at most half the places,
      whatever was deleted of it leaves every other item on its own side. */
  lemma HalfCeiling(x: Entry, es: seq<Entry>, items: set<Entry>)
    requires WithinHalf(items) && x in items && forall e :: e in es ==> e in items
    ensures Faithful(x, es)
  {
    if SlotCount(x.ms) > 0 {
      HalfIsNearEnough(x, es, items);
      DeletedItemExactly(x, es);
    } else {
      forall e | e in es && e.ms == x.ms
        ensures e.serial == x.serial
      {
        assert HalfApart(x, e);
      }
      BareTimestamp(x, es);
    }
  }

  /** The half is as far as it goes: one sequence number further, the only survivor is taken to be on
      the other side of the deleted item. */
  lemma HalfCeilingIsTight(x: Entry, survivor: Entry)
    requires SlotCount(x.ms) > 1 && survivor.ms == x.ms
    requires 2 * Abs(survivor.serial - x.serial) == SlotCount(x.ms) + 1
    ensures !Faithful(x, [survivor])
  {
    var es := [survivor];
    assert es[..0] == [];
    assert RunOf(es, x.ms) == Run(survivor.serial, survivor.serial);
    DeletedItemExactly(x, es);
  }

  /** Survivors on both sides of a deleted item: the whole slot count is enough. */
  lemma DeletedBetweenSurvivors(x: Entry, older: Entry, newer: Entry, es: seq<Entry>)
    requires BelowCeiling(es) && SlotCount(x.ms) > 0
    requires older in es && newer in es && older.ms == x.ms == newer.ms
    requires older.serial < x.serial < newer.serial
    ensures Faithful(x, es)
  {
    RunReaches(es, x.ms);
    var a, b := RunEnds(x.ms, es);
    assert ShareNoPlace(a, b);
    DeletedItemExactly(x, es);
  }

  /** The ceiling: a cursor names exactly the item it was made from while that item is listed and
      the run is shorter than the places. */
  lemma ListedItemIsNamed(x: Entry, es: seq<Entry>)
    requires BelowCeiling(es) && x in es
    ensures Faithful(x, es)
  {
    if SlotCount(x.ms) > 0 {
      RunReaches(es, x.ms);
      var a, b := RunEnds(x.ms, es);
      assert ShareNoPlace(a, b);
      DeletedItemExactly(x, es);
    } else {
      forall e | e in es && e.ms == x.ms
        ensures e.serial == x.serial
      {
        assert ShareNoPlace(e, x);
      }
      BareTimestamp(x, es);
    }
  }

  /** Past the ceiling a listed item's cursor is read as an older item of the same place: at or
      before it, a whole number of slot counts away, and the oldest such of the run. */
  lemma PastTheCeiling(x: Entry, es: seq<Entry>)
    requires x in es && SlotCount(x.ms) > 0
    ensures RunOf(es, x.ms).Run?
    ensures var n, r, lo := SlotCount(x.ms), BoundOf(CursorTo(x), es).serial, RunOf(es, x.ms).lo;
      lo <= r < lo + n && r <= x.serial && r % n == x.serial % n
  {
    SlotIsResidue(x.ms, x.serial);
    RunReaches(es, x.ms);
    RecoverCases(x.ms, x.serial, RunOf(es, x.ms));
  }

  // ---------------------------------------------------------------- 64-bit arithmetic

  predicate Int64(a: int) {
    -0x8000_0000_0000_0000 <= a < 0x8000_0000_0000_0000
  }

  /** The model counts in unbounded numbers, and so does the 64-bit code: for sequence numbers of
      magnitude up to 2^62 no intermediate result of the recovery wraps around. */
  lemma RecoveryFitsInt64(slot: int, n: int, run: Run)
    requires 0 < n <= 4095 && 1 <= slot <= n && run.Run?
    requires -0x4000_0000_0000_0000 <= run.lo <= run.hi <= 0x4000_0000_0000_0000
    ensures var d := slot - 1 - run.lo;
      var first := run.lo + Wrap(d, n);
      && Int64(d) && Int64(TruncRem(d, n) + n) && Int64(first) && Int64(first - n)
      && Int64(run.lo - (first - n)) && Int64(first - run.hi)
  {
    WrapIsModulo(slot - 1 - run.lo, n);
  }
}
