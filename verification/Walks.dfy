/** A client's walk of a listing: the `next` of each page is the cursor of the one after, and the
    listing may change between them. */
module Walks {
  import opened Options
  import opened Cursors
  import opened CursorPlaces
  import opened Pages
  import opened Recovery

  /** One request: `until=next` for a walk that runs newest first, `since=next` for one that runs
      the other way. A cursor that does not read is refused. */
  function Ask(round: real -> real, es: seq<Entry>, ascending: bool, next: Option<real>, limit: int): Result<Page> {
    match next
    case None => Ok(PageOf(round, es, [], [], ascending, limit))
    case Some(f) =>
      var c := CursorOf(round, Finite(f));
      if c.Err? || !Readable(c.value) then Err
      else if ascending then Ok(PageOf(round, es, [c.value], [], ascending, limit))
      else Ok(PageOf(round, es, [], [c.value], ascending, limit))
  }

  /** Every number of the format is answered with a page or refused as no cursor: a cursor that is accepted
      can be read in any listing. */
  lemma AcceptedIsReadable(round: real -> real, es: seq<Entry>, ascending: bool, f: real, limit: int)
    requires Exact(round) && Binary64(f)
    ensures CursorOf(round, Finite(f)).Ok? ==> Readable(CursorOf(round, Finite(f)).value)
    ensures Ask(round, es, ascending, Some(f), limit).Ok? <==> CursorOf(round, Finite(f)).Ok?
  {
    hide CursorOf, PageOf, Binary64, Exact;
    if CursorOf(round, Finite(f)).Ok? {
      AcceptedHasPlaces(round, f);
    }
  }

  ghost predicate InRange(e: Entry) {
    Abs(e.ms) <= MAX_CURSOR_MS
  }

  // ---------------------------------------------------------------- one page

  /** The items a request after x has to choose from, in order. */
  ghost predicate IsRest(rest: seq<Entry>, es: seq<Entry>, ascending: bool, after: Option<Entry>) {
    && Ordered(ascending, rest)
    && forall e :: e in rest <==> e in es && (after.Some? ==> Precedes(ascending, after.value, e))
  }

  function NextOf(round: real -> real, x: Entry): real {
    PageCursor(round, x.ms, x.serial)
  }

  function CursorsOf(after: Option<Entry>): (cs: seq<Cursor>)
    ensures forall c :: c in cs ==> Readable(c)
  {
    if after.None? then [] else [CursorTo(after.value)]
  }

  function PageFrom(round: real -> real, es: seq<Entry>, ascending: bool, after: Option<Entry>, limit: int): Page {
    if ascending then PageOf(round, es, CursorsOf(after), [], true, limit)
    else PageOf(round, es, [], CursorsOf(after), false, limit)
  }

  lemma AskReadsItsCursor(round: real -> real, es: seq<Entry>, ascending: bool, after: Option<Entry>, limit: int)
    requires Exact(round)
    requires after.Some? ==> InRange(after.value)
    ensures var next := if after.Some? then Some(NextOf(round, after.value)) else None;
      Ask(round, es, ascending, next, limit) == Ok(PageFrom(round, es, ascending, after, limit))
  {
    if after.Some? {
      CursorRoundTrip(round, after.value.ms, after.value.serial);
      assert CursorOf(round, Finite(NextOf(round, after.value))) == Ok(CursorTo(after.value));
    }
  }

  /** The page after the item a faithful cursor was made from is cut from exactly the items that
      sort after it. */
  lemma PageAfter(round: real -> real, es: seq<Entry>, ascending: bool, after: Option<Entry>, limit: int)
    returns (rest: seq<Entry>)
    requires Distinct(es)
    requires after.Some? ==> Faithful(after.value, es)
    ensures IsRest(rest, es, ascending, after)
    ensures PageFrom(round, es, ascending, after, limit) == PageOfKept(round, rest, limit)
  {
    var bs := Bounds(CursorsOf(after), es);
    var kept := if ascending then Keep(es, bs, []) else Keep(es, [], bs);
    KeepIsDistinct(es, if ascending then bs else [], if ascending then [] else bs);
    SortOrders(ascending, kept);
    rest := Sort(ascending, kept);
    assert Bounds([], es) == [];
    assert after.Some? ==> bs == [BoundOf(CursorTo(after.value), es)];
  }

  // ---------------------------------------------------------------- a listing that changes

  datatype Step = Add(at: nat, e: Entry) | Remove(at: nat) | Request(limit: int)

  /** The listing in the order the store keeps it, the cursor the client holds, what it was served,
      and whether the last page said there is no next. */
  datatype Walk = Walk(listing: seq<Entry>, next: Option<real>, served: seq<Entry>, done: bool)

  ghost predicate Enabled(w: Walk, step: Step) {
    match step
    case Add(at, e) => at <= |w.listing| && Distinct(w.listing[..at] + [e] + w.listing[at..])
    case Remove(at) => at < |w.listing|
    case Request(limit) => limit >= 1 && !w.done
  }

  function Next(round: real -> real, w: Walk, step: Step): Walk {
    match step
    case Add(at, e) =>
      if at <= |w.listing| then w.(listing := w.listing[..at] + [e] + w.listing[at..]) else w
    case Remove(at) =>
      if at < |w.listing| then w.(listing := w.listing[..at] + w.listing[at + 1..]) else w
    case Request(limit) =>
      match Ask(round, w.listing, false, w.next, limit)
      case Err => w
      case Ok(page) => Walk(w.listing, page.next, w.served + page.items, page.next.None?)
  }

  function Run(round: real -> real, w: Walk, steps: seq<Step>): Walk
    decreases |steps|
  {
    if steps == [] then w else Run(round, Next(round, w, steps[0]), steps[1..])
  }

  ghost predicate Possible(round: real -> real, w: Walk, steps: seq<Step>)
    decreases |steps|
  {
    steps == [] || (Enabled(w, steps[0]) && Possible(round, Next(round, w, steps[0]), steps[1..]))
  }

  /** Every item the listing ever holds. */
  ghost function Ever(round: real -> real, w: Walk, steps: seq<Step>): set<Entry>
    decreases |steps|
  {
    (set e | e in w.listing) + if steps == [] then {} else Ever(round, Next(round, w, steps[0]), steps[1..])
  }

  /** The listing holds the item from the first step to the last. */
  ghost predicate Throughout(round: real -> real, w: Walk, steps: seq<Step>, e: Entry)
    decreases |steps|
  {
    e in w.listing && (steps == [] || Throughout(round, Next(round, w, steps[0]), steps[1..], e))
  }

  ghost function LastServed(w: Walk): Option<Entry> {
    if w.served == [] then None else Some(w.served[|w.served| - 1])
  }

  /** What was served is strictly newest first, and nothing is listed or served but the items. */
  ghost predicate Serving(w: Walk, items: set<Entry>) {
    && Distinct(w.listing)
    && Ordered(false, w.served)
    && (forall e :: e in w.listing ==> e in items)
    && (forall e :: e in w.served ==> e in items)
  }

  /** The client of a walk that is not done holds the cursor of the last item it was served. */
  ghost predicate HoldsCursor(round: real -> real, w: Walk) {
    !w.done ==> w.next == if w.served == [] then None else Some(NextOf(round, w.served[|w.served| - 1]))
  }

  ghost predicate WalkInvariant(round: real -> real, w: Walk, items: set<Entry>) {
    Serving(w, items) && HoldsCursor(round, w)
  }

  /** An item still to come sorts after everything served; none is when the walk is done. */
  ghost predicate Accounted(w: Walk, e: Entry) {
    e in w.served || (!w.done && (w.served != [] ==> Newer(w.served[|w.served| - 1], e)))
  }

  lemma RequestStep(round: real -> real, w: Walk, limit: int, items: set<Entry>) returns (rest: seq<Entry>)
    requires Exact(round) && WithinHalf(items) && (forall e :: e in items ==> InRange(e))
    requires WalkInvariant(round, w, items) && limit >= 1 && !w.done
    ensures IsRest(rest, w.listing, false, LastServed(w))
    ensures var w' := Next(round, w, Request(limit));
      && w'.listing == w.listing && w'.served == w.served + rest[..Min(limit, |rest|)]
      && (w'.done <==> |rest| <= limit)
      && HoldsCursor(round, w')
  {
    hide PageCursor, PageOf, Sort, Keep, Ordered, Distinct, Exact;
    if w.served != [] {
      HalfCeiling(w.served[|w.served| - 1], w.listing, items);
    }
    AskReadsItsCursor(round, w.listing, false, LastServed(w), limit);
    rest := PageAfter(round, w.listing, false, LastServed(w), limit);
  }

  lemma OrderedAppend(s: seq<Entry>, t: seq<Entry>)
    requires Ordered(false, s) && Ordered(false, t)
    requires s != [] ==> forall e :: e in t ==> Newer(s[|s| - 1], e)
    ensures Ordered(false, s + t)
  {
    forall i, j | 0 <= i < j < |s + t|
      ensures Newer((s + t)[i], (s + t)[j])
    {
      if i < |s| <= j {
        assert t[j - |s|] in t;
        assert i == |s| - 1 || Newer(s[i], s[|s| - 1]);
      }
    }
  }

  /** Serving the first few of the rest of a listing keeps the serving ordered and every item of
      the listing accounted for. */
  lemma ServeRest(w: Walk, w': Walk, rest: seq<Entry>, limit: int, items: set<Entry>)
    requires limit >= 1 && !w.done && Serving(w, items) && IsRest(rest, w.listing, false, LastServed(w))
    requires w'.listing == w.listing && w'.served == w.served + rest[..Min(limit, |rest|)]
    requires w'.done <==> |rest| <= limit
    ensures Serving(w', items)
    ensures forall e :: e in w.listing && Accounted(w, e) ==> Accounted(w', e)
  {
    var n := Min(limit, |rest|);
    assert forall e :: e in rest[..n] ==> e in rest;
    OrderedAppend(w.served, rest[..n]);
    forall e | e in w.listing && Accounted(w, e)
      ensures Accounted(w', e)
    {
      if e !in w.served {
        assert e in rest;
        var i :| 0 <= i < |rest| && rest[i] == e;
        if i < n {
          assert rest[..n][i] in w'.served;
        } else {
          assert w'.served[|w'.served| - 1] == rest[n - 1];
        }
      }
    }
  }

  lemma RequestKeepsInvariant(round: real -> real, w: Walk, limit: int, items: set<Entry>)
    requires Exact(round) && WithinHalf(items) && (forall e :: e in items ==> InRange(e))
    requires WalkInvariant(round, w, items) && limit >= 1 && !w.done
    ensures WalkInvariant(round, Next(round, w, Request(limit)), items)
    ensures forall e :: e in w.listing && Accounted(w, e) ==> Accounted(Next(round, w, Request(limit)), e)
  {
    var rest := RequestStep(round, w, limit, items);
    hide Next, HoldsCursor, IsRest, Serving, Accounted, WithinHalf;
    ServeRest(w, Next(round, w, Request(limit)), rest, limit, items);
  }

  lemma StepKeepsInvariant(round: real -> real, w: Walk, step: Step, items: set<Entry>)
    requires Exact(round) && WithinHalf(items) && (forall e :: e in items ==> InRange(e))
    requires WalkInvariant(round, w, items) && Enabled(w, step)
    requires forall e :: e in Next(round, w, step).listing ==> e in items
    ensures WalkInvariant(round, Next(round, w, step), items)
    ensures forall e :: e in w.listing && Accounted(w, e) ==> Accounted(Next(round, w, step), e)
  {
    if step.Request? {
      RequestKeepsInvariant(round, w, step.limit, items);
    } else {
      ChangeKeepsServing(round, w, step, items);
      hide Ask, Serving, NextOf;
    }
  }

  lemma ChangeKeepsServing(round: real -> real, w: Walk, step: Step, items: set<Entry>)
    requires Serving(w, items) && Enabled(w, step) && !step.Request?
    requires forall e :: e in Next(round, w, step).listing ==> e in items
    ensures Serving(Next(round, w, step), items)
  {
    hide Ask, Ordered;
  }

  lemma {:induction false} RunKeepsInvariant(round: real -> real, w: Walk, steps: seq<Step>, items: set<Entry>)
    requires Exact(round) && WithinHalf(items) && (forall e :: e in items ==> InRange(e))
    requires WalkInvariant(round, w, items) && Possible(round, w, steps)
    requires Ever(round, w, steps) <= items
    ensures WalkInvariant(round, Run(round, w, steps), items)
    ensures forall e :: Throughout(round, w, steps, e) && Accounted(w, e) ==> Accounted(Run(round, w, steps), e)
    decreases |steps|
  {
    hide Next;
    if steps != [] {
      var w' := Next(round, w, steps[0]);
      assert forall d :: d in w'.listing ==> d in Ever(round, w', steps[1..]);
      StepKeepsInvariant(round, w, steps[0], items);
      RunKeepsInvariant(round, w', steps[1..], items);
    }
  }

  function Start(listing: seq<Entry>): Walk {
    Walk(listing, None, [], false)
  }

  /** Whatever is inserted and deleted between the pages of a walk, as long as the items ever listed
      of one millisecond lie within half its places: what is served is strictly newest first, so
      nothing twice, and a walk that was told there is no more has served every item that was
      there throughout. */
  lemma WalkUnderChange(round: real -> real, listing: seq<Entry>, steps: seq<Step>)
    requires Exact(round) && Distinct(listing) && Possible(round, Start(listing), steps)
    requires var items := Ever(round, Start(listing), steps);
      WithinHalf(items) && forall e :: e in items ==> InRange(e)
    ensures var w := Run(round, Start(listing), steps);
      Ordered(false, w.served) &&
      (w.done ==> forall e :: Throughout(round, Start(listing), steps, e) ==> e in w.served)
  {
    hide Next;
    RunKeepsInvariant(round, Start(listing), steps, Ever(round, Start(listing), steps));
  }

  /** In a strictly ordered serving every item served is served exactly once. */
  lemma ServedOnce(s: seq<Entry>, e: Entry)
    requires Ordered(false, s) && e in s
    ensures exists i :: 0 <= i < |s| && s[i] == e && forall j :: 0 <= j < |s| && s[j] == e ==> j == i
  {
    var i :| 0 <= i < |s| && s[i] == e;
    forall j | 0 <= j < |s| && s[j] == e
      ensures j == i
    {
      assert j < i ==> Newer(s[j], s[i]);
      assert i < j ==> Newer(s[i], s[j]);
    }
  }
}
