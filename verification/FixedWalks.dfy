/** A walk of a listing that does not change: exact below the ceiling, and past it still ordered,
    without repeats and finite. */
module FixedWalks {
  import opened Options
  import opened Cursors
  import opened Pages
  import opened Recovery
  import opened Walks

  /** The pages a client is answered, asking until there is no next or it has asked fuel more times. */
  function WalkPages(round: real -> real, es: seq<Entry>, ascending: bool, next: Option<real>,
          limit: int, fuel: nat): seq<Page>
    decreases fuel
  {
    match Ask(round, es, ascending, next, limit)
    case Err => []
    case Ok(page) =>
      if page.next.None? || fuel == 0 then [page]
      else [page] + WalkPages(round, es, ascending, page.next, limit, fuel - 1)
  }

  function Items(pages: seq<Page>): seq<Entry> {
    if pages == [] then [] else pages[0].items + Items(pages[1..])
  }

  /** The walk was told there is no more. */
  predicate Finished(pages: seq<Page>) {
    pages != [] && pages[|pages| - 1].next.None?
  }

  function PageCount(n: nat, limit: int): (count: nat)
    requires limit >= 1
  {
    if n <= limit then 1 else 1 + PageCount(n - limit, limit)
  }

  lemma CeilingStep(n: int, limit: int)
    requires limit >= 1 && n > limit
    ensures (n + limit - 1) / limit == 1 + (n - limit + limit - 1) / limit
  {
    var q, r := (n - 1) / limit, (n - 1) % limit;
    assert n - 1 == limit * q + r;
    Distribute(limit, q, -1);
    DivOfSum(q + 1, r, limit);
    assert n + limit - 1 == limit * (q + 1) + r;
    assert n - limit + limit - 1 == n - 1;
  }

  lemma DivOfSum(q: int, r: int, n: int)
    requires 0 <= r < n
    ensures (n * q + r) / n == q
  {
    var a := n * q + r;
    var d := a / n;
    ModOfSum(q, r, n);
    assert a == n * d + r;
    Distribute(n, q, d);
    SmallMultiple(n, q - d);
  }

  /** As many pages as the limit goes into the items, rounded up, and one for an empty listing. */
  lemma {:induction false} PageCountIsCeiling(n: nat, limit: int)
    requires limit >= 1
    ensures PageCount(n, limit) == Max(1, (n + limit - 1) / limit)
  {
    if n > limit {
      CeilingStep(n, limit);
      PageCountIsCeiling(n - limit, limit);
      DivOfSum(0, 0, limit);
      if n - limit >= 1 {
        AtLeastOne(n - limit, limit);
      }
    } else if n > 0 {
      DivOfSum(1, n - 1, limit);
      Distribute(limit, 1, 0);
      assert n + limit - 1 == limit * 1 + (n - 1);
    } else {
      DivOfSum(0, limit - 1, limit);
    }
  }

  lemma AtLeastOne(n: int, limit: int)
    requires n >= 1 && limit >= 1
    ensures (n + limit - 1) / limit >= 1
  {
  }

  // ---------------------------------------------------------------- below the ceiling

  function Before(s: seq<Entry>, j: nat): Option<Entry>
    requires j <= |s|
  {
    if j == 0 then None else Some(s[j - 1])
  }

  /** What sorts after an item of the order is the part of the order behind it. */
  lemma SuffixIsRest(s: seq<Entry>, es: seq<Entry>, ascending: bool, j: nat)
    requires Ordered(ascending, s) && SameItems(s, es) && j <= |s|
    ensures IsRest(s[j..], es, ascending, Before(s, j))
  {
    forall e | e in s[j..]
      ensures e in es && (j > 0 ==> Precedes(ascending, s[j - 1], e))
    {
      var i :| j <= i < |s| && s[i] == e;
    }
    forall e | e in es && (j > 0 ==> Precedes(ascending, s[j - 1], e))
      ensures e in s[j..]
    {
      var i :| 0 <= i < |s| && s[i] == e;
      assert i >= j;
      assert s[j..][i - j] == e;
    }
  }

  ghost function HeldCursor(round: real -> real, s: seq<Entry>, j: nat): Option<real>
    requires j <= |s|
  {
    if j == 0 then None else Some(NextOf(round, s[j - 1]))
  }

  lemma RequestInOrder(round: real -> real, s: seq<Entry>, es: seq<Entry>, ascending: bool, limit: int, j: nat)
    requires Exact(round) && Distinct(es) && BelowCeiling(es) && (forall e :: e in es ==> InRange(e))
    requires Ordered(ascending, s) && SameItems(s, es) && j <= |s|
    ensures Ask(round, es, ascending, HeldCursor(round, s, j), limit) == Ok(PageOfKept(round, s[j..], limit))
  {
    hide PageCursor, PageOf, Exact;
    if j > 0 {
      assert s[j - 1] in s;
      ListedItemIsNamed(s[j - 1], es);
    }
    AskReadsItsCursor(round, es, ascending, Before(s, j), limit);
    var rest := PageAfter(round, es, ascending, Before(s, j), limit);
    SuffixIsRest(s, es, ascending, j);
    OrderIsUnique(ascending, rest, s[j..]);
  }

  /** A walk's first page and the walk from there. */
  lemma WalkOn(round: real -> real, es: seq<Entry>, ascending: bool, next: Option<real>, limit: int,
          fuel: nat, page: Page)
    requires Ask(round, es, ascending, next, limit) == Ok(page)
    ensures var pages := WalkPages(round, es, ascending, next, limit, fuel);
      if page.next.None? then pages == [page] && Items(pages) == page.items && Finished(pages)
      else fuel > 0 ==>
        var others := WalkPages(round, es, ascending, page.next, limit, fuel - 1);
        pages == [page] + others && Items(pages) == page.items + Items(others) && (Finished(others) ==> Finished(pages))
  {
    hide Ask, Items, Finished;
    var pages := WalkPages(round, es, ascending, next, limit, fuel);
    if page.next.Some? && fuel > 0 {
      var others := WalkPages(round, es, ascending, page.next, limit, fuel - 1);
      assert pages == [page] + others;
      hide WalkPages;
      FirstPage(page, others);
    } else {
      assert pages == [page] + [];
      hide WalkPages;
      FirstPage(page, []);
    }
  }

  lemma FirstPage(page: Page, others: seq<Page>)
    ensures Items([page] + others) == page.items + Items(others)
    ensures Finished(others) || (others == [] && page.next.None?) ==> Finished([page] + others)
    ensures others == [] ==> Items([page] + others) == page.items
  {
    assert ([page] + others)[1..] == others;
  }

  lemma {:induction false} WalkFrom(round: real -> real, s: seq<Entry>, es: seq<Entry>, ascending: bool,
          limit: int, j: nat, fuel: nat)
    requires Exact(round) && Distinct(es) && BelowCeiling(es) && (forall e :: e in es ==> InRange(e))
    requires Ordered(ascending, s) && SameItems(s, es) && j <= |s| && limit >= 1 && fuel >= |s| - j
    ensures var pages := WalkPages(round, es, ascending, HeldCursor(round, s, j), limit, fuel);
      && Items(pages) == s[j..]
      && |pages| == PageCount(|s| - j, limit)
      && Finished(pages)
      && (forall i :: 0 <= i < |pages| - 1 ==> |pages[i].items| == limit)
    decreases |s| - j
  {
    hide Ask, PageCursor, Exact, Distinct, BelowCeiling, SameItems, Ordered, WalkPages, Items, Finished;
    RequestInOrder(round, s, es, ascending, limit, j);
    var page := PageOfKept(round, s[j..], limit);
    WalkOn(round, es, ascending, HeldCursor(round, s, j), limit, fuel, page);
    if |s| - j > limit {
      assert s[j..][limit - 1] == s[j + limit - 1];
      assert page.next == HeldCursor(round, s, j + limit);
      WalkFrom(round, s, es, ascending, limit, j + limit, fuel - 1);
      assert s[j..] == s[j..][..limit] + s[j + limit..];
    }
  }

  /** Below the ceiling the pages of a walk are the whole listing, in order, each item once: newest
      first asking `until`, oldest first asking `since`, and every page but the last is full. */
  lemma WalkOfFixedListing(round: real -> real, es: seq<Entry>, ascending: bool, limit: int)
    requires Exact(round) && Distinct(es) && BelowCeiling(es) && (forall e :: e in es ==> InRange(e))
    requires limit >= 1
    ensures var s, pages := Sort(ascending, es), WalkPages(round, es, ascending, None, limit, |es|);
      && Ordered(ascending, s) && SameItems(s, es)
      && Items(pages) == s && Finished(pages)
      && |pages| == Max(1, (|es| + limit - 1) / limit)
      && (forall i :: 0 <= i < |pages| - 1 ==> |pages[i].items| == limit)
  {
    hide Ask, PageCursor, Exact, BelowCeiling;
    SortOrders(ascending, es);
    var s := Sort(ascending, es);
    SortKeepsLength(ascending, es);
    WalkFrom(round, s, es, ascending, limit, 0, |es|);
    assert s[0..] == s;
    PageCountIsCeiling(|es|, limit);
  }

  lemma {:induction false} InsertAddsOne(ascending: bool, s: seq<Entry>, e: Entry)
    ensures |Insert(ascending, s, e)| == |s| + 1
  {
    if s != [] && Precedes(ascending, e, s[|s| - 1]) {
      InsertAddsOne(ascending, s[..|s| - 1], e);
    }
  }

  lemma {:induction false} SortKeepsLength(ascending: bool, es: seq<Entry>)
    ensures |Sort(ascending, es)| == |es|
  {
    if es != [] {
      SortKeepsLength(ascending, es[..|es| - 1]);
      InsertAddsOne(ascending, Sort(ascending, es[..|es| - 1]), es[|es| - 1]);
    }
  }

  // ---------------------------------------------------------------- past the ceiling

  /** What a newest-first walk jumps over after x: the items of its millisecond older than it and no
      older than the one its cursor is read as (all of them, where the millisecond has no places). */
  ghost predicate Skipped(x: Entry, es: seq<Entry>, e: Entry) {
    && e.ms == x.ms && e.serial < x.serial
    && (SlotCount(x.ms) > 0 ==> BoundOf(CursorTo(x), es).serial <= e.serial)
  }

  lemma CutPastCeiling(x: Entry, es: seq<Entry>, e: Entry)
    requires x in es && e in es
    ensures OlderThan(BoundOf(CursorTo(x), es), e) <==> Newer(x, e) && !Skipped(x, es, e)
  {
    SlotIsResidue(x.ms, x.serial);
    if SlotCount(x.ms) > 0 {
      PastTheCeiling(x, es);
    }
  }

  ghost predicate IsRestPastCeiling(rest: seq<Entry>, es: seq<Entry>, after: Option<Entry>) {
    && Ordered(false, rest)
    && forall e :: e in rest <==>
      e in es && (after.Some? ==> Newer(after.value, e) && !Skipped(after.value, es, e))
  }

  /** The page after a listed item holds exactly the older items that are not skipped. */
  lemma PagePastCeiling(round: real -> real, es: seq<Entry>, after: Option<Entry>, limit: int)
    returns (rest: seq<Entry>)
    requires Exact(round) && Distinct(es)
    requires after.Some? ==> InRange(after.value) && after.value in es
    ensures IsRestPastCeiling(rest, es, after)
    ensures var next := if after.Some? then Some(NextOf(round, after.value)) else None;
      Ask(round, es, false, next, limit) == Ok(PageOfKept(round, rest, limit))
  {
    hide Ask, CursorOf, CursorTo, Sort, Keep, PageCursor, Exact, BoundOf, Skipped, SlotCount;
    AskReadsItsCursor(round, es, false, after, limit);
    var bs := Bounds(CursorsOf(after), es);
    var kept := Keep(es, [], bs);
    KeepIsDistinct(es, [], bs);
    SortOrders(false, kept);
    rest := Sort(false, kept);
    assert Bounds([], es) == [];
    if after.Some? {
      assert bs == [BoundOf(CursorTo(after.value), es)];
      forall e | e in es
        ensures Kept(e, [], bs) <==> Newer(after.value, e) && !Skipped(after.value, es, e)
      {
        CutPastCeiling(after.value, es, e);
      }
    }
  }

  lemma {:induction false} OrderedSubsetIsShorter(s: seq<Entry>, t: seq<Entry>)
    requires Ordered(false, s) && Ordered(false, t) && forall e :: e in s ==> e in t
    ensures |s| <= |t|
  {
    if s != [] {
      assert s[0] in t;
      var i :| 0 <= i < |t| && t[i] == s[0];
      forall e | e in s[1..]
        ensures e in t[i + 1..]
      {
        assert Newer(s[0], e) && e in t;
        var k :| 0 <= k < |t| && t[k] == e;
        assert k > i;
        assert t[i + 1..][k - i - 1] == e;
      }
      OrderedSubsetIsShorter(s[1..], t[i + 1..]);
    }
  }

  ghost predicate AllOlder(after: Option<Entry>, s: seq<Entry>) {
    after.Some? ==> forall e :: e in s ==> Newer(after.value, e)
  }

  lemma {:induction false} WalkPastCeilingFrom(round: real -> real, es: seq<Entry>,
          after: Option<Entry>, rest: seq<Entry>, limit: int, fuel: nat)
    requires Exact(round) && Distinct(es) && (forall e :: e in es ==> InRange(e))
    requires after.Some? ==> after.value in es
    requires IsRestPastCeiling(rest, es, after) && limit >= 1 && fuel >= |rest|
    ensures var pages := WalkPages(round, es, false,
        if after.Some? then Some(NextOf(round, after.value)) else None, limit, fuel);
      && Ordered(false, Items(pages)) && Finished(pages)
      && (forall e :: e in Items(pages) ==> e in es)
      && AllOlder(after, Items(pages))
    decreases fuel
  {
    hide Ask, PageCursor, Exact, Distinct, Skipped, Ordered, WalkPages, Items, Finished;
    var next := if after.Some? then Some(NextOf(round, after.value)) else None;
    var rest1 := PagePastCeiling(round, es, after, limit);
    OrderIsUnique(false, rest1, rest);
    var page := PageOfKept(round, rest, limit);
    WalkOn(round, es, false, next, limit, fuel, page);
    assert forall e :: e in page.items ==> e in rest;
    if |rest| > limit {
      var x := rest[limit - 1];
      var rest' := PagePastCeiling(round, es, Some(x), limit);
      RestShrinks(rest, rest', es, after, limit);
      WalkPastCeilingFrom(round, es, Some(x), rest', limit, fuel - 1);
      JoinPage(after, rest, limit, Items(WalkPages(round, es, false, page.next, limit, fuel - 1)));
    } else {
      assert page.items == rest;
    }
  }

  lemma JoinPage(after: Option<Entry>, rest: seq<Entry>, limit: int, others: seq<Entry>)
    requires Ordered(false, rest) && AllOlder(after, rest) && 1 <= limit < |rest|
    requires Ordered(false, others) && AllOlder(Some(rest[limit - 1]), others)
    ensures Ordered(false, rest[..limit] + others) && AllOlder(after, rest[..limit] + others)
  {
    OrderedAppend(rest[..limit], others);
    if after.Some? {
      assert Newer(after.value, rest[limit - 1]);
      assert forall e :: e in rest[..limit] ==> e in rest;
    }
  }

  lemma RestShrinks(rest: seq<Entry>, rest': seq<Entry>, es: seq<Entry>, after: Option<Entry>, limit: int)
    requires IsRestPastCeiling(rest, es, after) && 1 <= limit < |rest|
    requires IsRestPastCeiling(rest', es, Some(rest[limit - 1]))
    ensures |rest'| < |rest| && forall e :: e in rest' ==> e in rest
  {
    hide BoundOf;
    forall e | e in rest'
      ensures e in rest[limit..]
    {
      var x := rest[limit - 1];
      assert Newer(x, e) && (after.Some? ==> Newer(after.value, x) && !Skipped(after.value, es, x));
      assert e in rest;
      var i :| 0 <= i < |rest| && rest[i] == e;
      assert i >= limit;
      assert rest[limit..][i - limit] == e;
    }
    OrderedSubsetIsShorter(rest', rest[limit..]);
  }

  /** After the last item of a page, not the final one, the item was skipped. */
  ghost predicate JumpedOver(pages: seq<Page>, es: seq<Entry>, e: Entry) {
    exists i :: 0 <= i < |pages| - 1 && pages[i].items != [] && Skipped(pages[i].items[|pages[i].items| - 1], es, e)
  }

  lemma JumpedOverFirst(page: Page, others: seq<Page>, es: seq<Entry>, e: Entry)
    requires page.items != [] && others != []
    ensures JumpedOver([page] + others, es, e) <==>
      Skipped(page.items[|page.items| - 1], es, e) || JumpedOver(others, es, e)
  {
    hide Skipped;
    var pages := [page] + others;
    if Skipped(page.items[|page.items| - 1], es, e) {
      assert pages[0] == page;
    } else if JumpedOver(others, es, e) {
      var i :| 0 <= i < |others| - 1 && others[i].items != []
        && Skipped(others[i].items[|others[i].items| - 1], es, e);
      assert pages[i + 1] == others[i];
    } else {
      assert forall i :: 0 < i < |pages| ==> pages[i] == others[i - 1];
    }
  }

  lemma {:induction false} ItemsOfPage(pages: seq<Page>, i: nat, e: Entry)
    requires i < |pages| && e in pages[i].items
    ensures e in Items(pages)
  {
    if i > 0 {
      ItemsOfPage(pages[1..], i - 1, e);
    }
  }

  /** No page of a walk after x skips what is as new as x. */
  lemma NoneJumpBack(pages: seq<Page>, es: seq<Entry>, x: Entry, e: Entry)
    requires AllOlder(Some(x), Items(pages)) && (e == x || Newer(e, x))
    ensures !JumpedOver(pages, es, e)
  {
    hide BoundOf, Items;
    forall i | 0 <= i < |pages| && pages[i].items != []
      ensures !Skipped(pages[i].items[|pages[i].items| - 1], es, e)
    {
      var y := pages[i].items[|pages[i].items| - 1];
      ItemsOfPage(pages, i, y);
    }
  }

  /** Of the items a walk has to choose from it misses those it jumps over, and serves no others. */
  lemma {:induction false} MissedFrom(round: real -> real, es: seq<Entry>, after: Option<Entry>, rest: seq<Entry>,
                                      limit: int, fuel: nat)
    requires Exact(round) && Distinct(es) && (forall e :: e in es ==> InRange(e))
    requires after.Some? ==> after.value in es
    requires IsRestPastCeiling(rest, es, after) && limit >= 1 && fuel >= |rest|
    ensures var next := if after.Some? then Some(NextOf(round, after.value)) else None;
      var pages := WalkPages(round, es, false, next, limit, fuel);
      forall e :: e in Items(pages) <==> e in rest && !JumpedOver(pages, es, e)
    decreases fuel
  {
    hide Ask, PageCursor, Exact, Distinct, Skipped, Ordered, WalkPages, Items, Finished, JumpedOver, Newer, InRange;
    var next := if after.Some? then Some(NextOf(round, after.value)) else None;
    var rest1 := PagePastCeiling(round, es, after, limit);
    OrderIsUnique(false, rest1, rest);
    var page := PageOfKept(round, rest, limit);
    WalkOn(round, es, false, next, limit, fuel, page);
    if |rest| > limit {
      var x := rest[limit - 1];
      var rest' := PagePastCeiling(round, es, Some(x), limit);
      RestShrinks(rest, rest', es, after, limit);
      WalkPastCeilingFrom(round, es, Some(x), rest', limit, fuel - 1);
      MissedFrom(round, es, Some(x), rest', limit, fuel - 1);
      var others := WalkPages(round, es, false, page.next, limit, fuel - 1);
      SomePages(others);
      forall e
        ensures e in page.items + Items(others) <==> e in rest && !JumpedOver([page] + others, es, e)
      {
        JumpedOverFirst(page, others, es, e);
        MissedAt(es, after, rest, rest', limit, others, e);
      }
    } else {
      assert page.items == rest;
      NoJump(page, es);
    }
  }

  lemma SomePages(pages: seq<Page>)
    requires Finished(pages)
    ensures pages != []
  {
  }

  lemma NoJump(page: Page, es: seq<Entry>)
    ensures forall e :: !JumpedOver([page], es, e)
  {
  }

  lemma MissedAt(es: seq<Entry>, after: Option<Entry>, rest: seq<Entry>, rest': seq<Entry>, limit: int,
          others: seq<Page>, e: Entry)
    requires IsRestPastCeiling(rest, es, after) && 1 <= limit < |rest|
    requires IsRestPastCeiling(rest', es, Some(rest[limit - 1])) && forall d :: d in rest' ==> d in rest
    requires e in Items(others) <==> e in rest' && !JumpedOver(others, es, e)
    requires AllOlder(Some(rest[limit - 1]), Items(others))
    ensures e in rest[..limit] + Items(others) <==>
      e in rest && !Skipped(rest[limit - 1], es, e) && !JumpedOver(others, es, e)
  {
    hide BoundOf, JumpedOver, Items;
    var x := rest[limit - 1];
    if e in rest[..limit] {
      var i :| 0 <= i < limit && rest[i] == e;
      assert e == x || Newer(e, x);
      NoneJumpBack(others, es, x, e);
    } else if e in rest {
      assert rest == rest[..limit] + rest[limit..];
      var i :| 0 <= i < |rest[limit..]| && rest[limit..][i] == e;
      assert rest[limit + i] == e && Newer(x, e);
    }
  }

  /** With no bound on how many items share a millisecond, a newest-first walk of a listing that does
      not change still comes to an end, never out of order, and never serves an item twice; and an item
      is missing from it if and only if it was skipped after some page's last item. */
  lemma WalkPastTheCeiling(round: real -> real, es: seq<Entry>, limit: int)
    requires Exact(round) && Distinct(es) && (forall e :: e in es ==> InRange(e)) && limit >= 1
    ensures var pages := WalkPages(round, es, false, None, limit, |es|);
      && Ordered(false, Items(pages)) && Finished(pages)
      && (forall e :: e in Items(pages) <==> e in es && !JumpedOver(pages, es, e))
  {
    hide Ask, PageCursor, Exact, Skipped, JumpedOver, WalkPages, Items;
    SortOrders(false, es);
    SortKeepsLength(false, es);
    WalkPastCeilingFrom(round, es, None, Sort(false, es), limit, |es|);
    MissedFrom(round, es, None, Sort(false, es), limit, |es|);
  }

  /** The cut after a listed item loses nothing if and only if no item lies between it and the one
      its cursor is read as. */
  lemma NothingLostExactly(x: Entry, es: seq<Entry>)
    requires x in es
    ensures (forall e :: e in es ==> (OlderThan(BoundOf(CursorTo(x), es), e) <==> Newer(x, e)))
       <==> (forall e :: e in es ==> !Skipped(x, es, e))
  {
    forall e | e in es
      ensures OlderThan(BoundOf(CursorTo(x), es), e) <==> Newer(x, e) && !Skipped(x, es, e)
    {
      CutPastCeiling(x, es, e);
    }
    assert forall e :: Skipped(x, es, e) ==> Newer(x, e);
  }
}
