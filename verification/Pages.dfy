/** The page a listing answers: the items cut by the cursors, newest first, and the first few of
    them (internal/engine/page.go). */
module Pages {
  import opened Options
  import opened Cursors

  /** A listed record with the two numbers it is ordered by: the millisecond it was made in and its
      number in the creation sequence. */
  datatype Entry = Entry(rec: string, ms: int, serial: int)

  /** Newest first: the later instant, and of one instant the later made. */
  predicate Newer(a: Entry, b: Entry) {
    a.ms > b.ms || (a.ms == b.ms && a.serial > b.serial)
  }

  predicate Precedes(ascending: bool, a: Entry, b: Entry) {
    if ascending then Newer(b, a) else Newer(a, b)
  }

  ghost predicate Distinct(es: seq<Entry>) {
    forall i, j :: 0 <= i < j < |es| ==> es[i].ms != es[j].ms || es[i].serial != es[j].serial
  }

  // ---------------------------------------------------------------- the item a cursor names

  /** The sequence numbers of the items of one millisecond: the least and the greatest. */
  datatype Run = NoRun | Run(lo: int, hi: int)

  function RunOf(es: seq<Entry>, ms: int): Run {
    if es == [] then NoRun
    else
      var e, r := es[|es| - 1], RunOf(es[..|es| - 1], ms);
      if e.ms != ms then r
      else if r.NoRun? then Run(e.serial, e.serial)
      else Run(Min(r.lo, e.serial), Max(r.hi, e.serial))
  }

  /** The run of a millisecond reaches from the oldest of its items to the newest, both listed. */
  lemma {:induction false} RunReaches(es: seq<Entry>, ms: int)
    ensures RunOf(es, ms).NoRun? <==> forall e :: e in es ==> e.ms != ms
    ensures RunOf(es, ms).Run? ==>
      var r := RunOf(es, ms);
      && (forall e :: e in es && e.ms == ms ==> r.lo <= e.serial <= r.hi)
      && (exists e :: e in es && e.ms == ms && e.serial == r.lo)
      && (exists e :: e in es && e.ms == ms && e.serial == r.hi)
  {
    if es != [] {
      var init, last := es[..|es| - 1], es[|es| - 1];
      assert es == init + [last];
      RunReaches(init, ms);
    }
  }

  datatype Bound = Bound(cursor: Cursor, serial: int)

  /** The sequence number a place stands for: the first with its residue from lo on, unless that is
      beyond the run and nearer to its other end. */
  function Recover(slot: int, n: int, run: Run): int
    requires n > 0
  {
    var lo := if run.Run? then run.lo else 0;
    var first := lo + Wrap(slot - 1 - lo, n);
    if run.Run? && first > run.hi && lo - (first - n) < first - run.hi then first - n else first
  }

  /** A place is only ever read in a millisecond that has places (see Walks.AcceptedIsReadable). */
  predicate Readable(c: Cursor) {
    c.slot != 0 ==> SlotCount(c.ms) > 0
  }

  function BoundOf(c: Cursor, es: seq<Entry>): (b: Bound)
    requires Readable(c)
    ensures b.cursor == c
  {
    if c.slot == 0 then Bound(c, 0) else Bound(c, Recover(c.slot, SlotCount(c.ms), RunOf(es, c.ms)))
  }

  predicate OlderThan(b: Bound, e: Entry) {
    !b.cursor.isSet || e.ms < b.cursor.ms
    || (b.cursor.slot != 0 && e.ms == b.cursor.ms && e.serial < b.serial)
  }

  predicate NewerThan(b: Bound, e: Entry) {
    !b.cursor.isSet || e.ms > b.cursor.ms
    || (b.cursor.slot != 0 && e.ms == b.cursor.ms && e.serial > b.serial)
  }

  method FindBound(c: Cursor, es: seq<Entry>) returns (b: Bound)
    requires Readable(c)
    ensures b == BoundOf(c, es)
  {
    hide Wrap, SlotCount;
    if c.slot == 0 {
      return Bound(c, 0);
    }
    var n := SlotCount(c.ms);
    var lo, hi, found := 0, 0, false;
    for i := 0 to |es|
      invariant RunOf(es[..i], c.ms) == if found then Run(lo, hi) else NoRun
      invariant !found ==> lo == 0
    {
      assert es[..i + 1][..i] == es[..i];
      var e := es[i];
      if e.ms == c.ms {
        if !found {
          lo, hi, found := e.serial, e.serial, true;
        }
        lo, hi := Min(lo, e.serial), Max(hi, e.serial);
      }
    }
    assert es[..|es|] == es;
    var serial := lo + Wrap(c.slot - 1 - lo, n);
    if found && serial > hi && lo - (serial - n) < serial - hi {
      serial := serial - n;
    }
    b := Bound(c, serial);
  }

  // ---------------------------------------------------------------- the cut and the order

  predicate Kept(e: Entry, newer: seq<Bound>, older: seq<Bound>) {
    (forall b :: b in newer ==> NewerThan(b, e)) && (forall b :: b in older ==> OlderThan(b, e))
  }

  function Keep(es: seq<Entry>, newer: seq<Bound>, older: seq<Bound>): (kept: seq<Entry>)
    ensures forall e :: e in kept <==> e in es && Kept(e, newer, older)
  {
    if es == [] then []
    else
      var e, rest := es[|es| - 1], Keep(es[..|es| - 1], newer, older);
      assert es == es[..|es| - 1] + [e];
      if Kept(e, newer, older) then rest + [e] else rest
  }

  function Insert(ascending: bool, sorted: seq<Entry>, e: Entry): seq<Entry> {
    if sorted == [] || !Precedes(ascending, e, sorted[|sorted| - 1]) then sorted + [e]
    else Insert(ascending, sorted[..|sorted| - 1], e) + [sorted[|sorted| - 1]]
  }

  /** A stable sort: items that neither precedes keep the order they came in. */
  function Sort(ascending: bool, es: seq<Entry>): seq<Entry> {
    if es == [] then [] else Insert(ascending, Sort(ascending, es[..|es| - 1]), es[|es| - 1])
  }

  function Bounds(cs: seq<Cursor>, es: seq<Entry>): seq<Bound>
    requires forall c :: c in cs ==> Readable(c)
  {
    seq(|cs|, i requires 0 <= i < |cs| => BoundOf(cs[i], es))
  }

  datatype Page = Page(items: seq<Entry>, next: Option<real>, first: Option<real>)

  function PageOfKept(round: real -> real, keep: seq<Entry>, limit: int): Page {
    var n := Max(limit, 0);
    Page(
      keep[..Min(n, |keep|)],
      if n > 0 && |keep| > n then Some(PageCursor(round, keep[n - 1].ms, keep[n - 1].serial)) else None,
      if |keep| > 0 then Some(PageCursor(round, keep[0].ms, keep[0].serial)) else None)
  }

  function PageOf(round: real -> real, es: seq<Entry>, newer: seq<Cursor>, older: seq<Cursor>,
                  ascending: bool, limit: int): Page
    requires forall c :: c in newer + older ==> Readable(c)
  {
    PageOfKept(round, Sort(ascending, Keep(es, Bounds(newer, es), Bounds(older, es))), limit)
  }

  method FindBounds(cs: seq<Cursor>, es: seq<Entry>) returns (bs: seq<Bound>)
    requires forall c :: c in cs ==> Readable(c)
    ensures bs == Bounds(cs, es)
  {
    bs := [];
    for i := 0 to |cs|
      invariant bs == Bounds(cs, es)[..i]
    {
      var b := FindBound(cs[i], es);
      bs := bs + [b];
    }
  }

  method Cut(es: seq<Entry>, newer: seq<Bound>, older: seq<Bound>) returns (keep: seq<Entry>)
    ensures keep == Keep(es, newer, older)
  {
    keep := [];
    for i := 0 to |es|
      invariant keep == Keep(es[..i], newer, older)
    {
      assert es[..i + 1][..i] == es[..i];
      var inside := true;
      for j := 0 to |newer|
        invariant inside <==> Kept(es[i], newer[..j], [])
      {
        inside := inside && NewerThan(newer[j], es[i]);
      }
      assert newer[..|newer|] == newer;
      for j := 0 to |older|
        invariant inside <==> Kept(es[i], newer, older[..j])
      {
        inside := inside && OlderThan(older[j], es[i]);
      }
      assert older[..|older|] == older;
      if inside {
        keep := keep + [es[i]];
      }
    }
    assert es[..|es|] == es;
  }

  method AnswerPage(round: real -> real, es: seq<Entry>, newer: seq<Cursor>, older: seq<Cursor>,
                    ascending: bool, limit: int) returns (page: Page)
    requires forall c :: c in newer + older ==> Readable(c)
    ensures page == PageOf(round, es, newer, older, ascending, limit)
  {
    var newerB := FindBounds(newer, es);
    var olderB := FindBounds(older, es);
    var keep := Cut(es, newerB, olderB);
    keep := Sort(ascending, keep);
    var n := Max(limit, 0);
    var next: Option<real>, first: Option<real> := None, None;
    if n > 0 && |keep| > n {
      next := Some(PageCursor(round, keep[n - 1].ms, keep[n - 1].serial));
    }
    if |keep| > 0 {
      first := Some(PageCursor(round, keep[0].ms, keep[0].serial));
    }
    page := Page(keep[..Min(n, |keep|)], next, first);
  }

  // ---------------------------------------------------------------- the order is one order

  ghost predicate Ordered(ascending: bool, s: seq<Entry>) {
    forall i, j :: 0 <= i < j < |s| ==> Precedes(ascending, s[i], s[j])
  }

  ghost predicate SameItems(s: seq<Entry>, t: seq<Entry>) {
    forall e :: e in s <==> e in t
  }

  lemma AppendOrders(ascending: bool, s: seq<Entry>, e: Entry)
    requires Ordered(ascending, s)
    requires forall d :: d in s ==> Precedes(ascending, d, e)
    ensures Ordered(ascending, s + [e])
  {
  }

  lemma {:induction false} InsertOrders(ascending: bool, s: seq<Entry>, e: Entry)
    requires Ordered(ascending, s)
    requires forall d :: d in s ==> d.ms != e.ms || d.serial != e.serial
    ensures Ordered(ascending, Insert(ascending, s, e))
    ensures SameItems(Insert(ascending, s, e), s + [e])
  {
    if s != [] {
      var init, last := s[..|s| - 1], s[|s| - 1];
      assert s == init + [last];
      assert forall d :: d in init ==> Precedes(ascending, d, last);
      if Precedes(ascending, e, last) {
        InsertOrders(ascending, init, e);
        assert forall d :: d in Insert(ascending, init, e) ==> d in init + [e];
        AppendOrders(ascending, Insert(ascending, init, e), last);
      } else {
        assert last in s;
        AppendOrders(ascending, s, e);
      }
    }
  }

  /** A listing has one order: sorting distinct items puts each strictly before the next. */
  lemma {:induction false} SortOrders(ascending: bool, es: seq<Entry>)
    requires Distinct(es)
    ensures Ordered(ascending, Sort(ascending, es))
    ensures SameItems(Sort(ascending, es), es)
  {
    if es != [] {
      var init, last := es[..|es| - 1], es[|es| - 1];
      assert es == init + [last];
      SortOrders(ascending, init);
      InsertOrders(ascending, Sort(ascending, init), last);
    }
  }

  lemma {:induction false} KeepIsDistinct(es: seq<Entry>, newer: seq<Bound>, older: seq<Bound>)
    requires Distinct(es)
    ensures Distinct(Keep(es, newer, older))
  {
    if es != [] {
      var init, last := es[..|es| - 1], es[|es| - 1];
      assert es == init + [last];
      KeepIsDistinct(init, newer, older);
      assert forall d :: d in init ==> d.ms != last.ms || d.serial != last.serial;
      assert forall d :: d in Keep(init, newer, older) ==> d in init;
    }
  }

  lemma NonEmptyHasItem(t: seq<Entry>)
    ensures t == [] || exists e :: e in t
  {
    if t != [] {
      assert t[0] in t;
    }
  }

  lemma FirstIsFirst(ascending: bool, s: seq<Entry>, t: seq<Entry>)
    requires Ordered(ascending, s) && Ordered(ascending, t) && SameItems(s, t) && s != []
    ensures t != [] && s[0] == t[0]
  {
    assert s[0] in t;
    assert t[0] in s;
  }

  /** Two strictly ordered listings of the same items are the same listing. */
  lemma {:induction false} OrderIsUnique(ascending: bool, s: seq<Entry>, t: seq<Entry>)
    requires Ordered(ascending, s) && Ordered(ascending, t) && SameItems(s, t)
    ensures s == t
  {
    if s == [] {
      NonEmptyHasItem(t);
    } else {
      FirstIsFirst(ascending, s, t);
      forall e | e in s[1..]
        ensures e in t[1..]
      {
        assert e in t && e != s[0];
      }
      forall e | e in t[1..]
        ensures e in s[1..]
      {
        assert e in s && e != t[0];
      }
      OrderIsUnique(ascending, s[1..], t[1..]);
    }
  }
}
