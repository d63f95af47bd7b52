/** A FIFO receive from end to end: what the drain takes of a queue's rows is what is sent the event, and
    redrives are made up for by draining again (internal/engine/select.go, internal/engine/effects.go). */
module Receives {
  import opened Options
  import opened Decimals
  import opened Texts
  import opened Statecharts
  import opened Queues
  import opened Custody
  import opened Sendings
  import opened Surveys
  import opened Dispatch
  import S = Selections

  /** What the selection's expressions make of a record. */
  datatype Reading = Reading(group: Record -> string, passes: Record -> bool, order: Record -> int,
      received: Record -> int)

  /** The store lists a collection's rows by key, as text. */
  function Names(l: Ledger, collection: string): (names: seq<string>)
    ensures forall i, j :: 0 <= i < j < |names| ==> names[i] != names[j]
    ensures forall n :: n in names <==> exists p :: p in l.rows && p.collection == collection && Itoa(p.key) == n
  {
    var names := Sorted(set p | p in l.rows && p.collection == collection :: Itoa(p.key));
    AscendingDiffer(names);
    names
  }

  function KeyNamed(name: string): nat {
    var n := Atoi(name);
    if n.Some? && n.value >= 0 then n.value else 0
  }

  lemma NameOfRow(l: Ledger, collection: string, name: string)
    requires name in Names(l, collection)
    ensures Place(collection, KeyNamed(name)) in l.rows && Itoa(KeyNamed(name)) == name
  {
    var p :| p in l.rows && p.collection == collection && Itoa(p.key) == name;
    ItoaReads(p.key);
    assert p == Place(collection, KeyNamed(name));
  }

  function ItemOf(chart: Chart, read: Reading, name: string, rec: Record): S.Item {
    S.Item(name, read.group(rec), StateOf(rec, chart), read.passes(rec), read.order(rec), read.received(rec))
  }

  /** The rows of a collection as the selection meets them. */
  function ItemsOf(chart: Chart, read: Reading, l: Ledger, collection: string): (items: seq<S.Item>)
    ensures |items| == |Names(l, collection)|
    ensures forall i :: 0 <= i < |items| ==> items[i].key == Names(l, collection)[i]
  {
    var names := Names(l, collection);
    seq(|names|, i requires 0 <= i < |names| =>
      NameOfRow(l, collection, names[i]);
      ItemOf(chart, read, names[i], l.rows[Place(collection, KeyNamed(names[i]))]))
  }

  function KeysTaken(taken: seq<S.Item>): (keys: seq<nat>)
    ensures |keys| == |taken| && forall i :: 0 <= i < |keys| ==> keys[i] == KeyNamed(taken[i].key)
  {
    seq(|taken|, i requires 0 <= i < |taken| => KeyNamed(taken[i].key))
  }

  /** The choice that a drained selection makes among the rows of a collection. */
  function Drain(chart: Chart, read: Reading, sel: S.Selector, arrange: S.Arrange): Chooser {
    (l, collection) => KeysTaken(S.Taken(sel, ItemsOf(chart, read, l, collection), arrange))
  }

  predicate Drains(sel: S.Selector) {
    sel.grouping && sel.drain
  }

  /** The keys taken are those of rows, none twice. */
  lemma DrainedKeys(chart: Chart, read: Reading, sel: S.Selector, arrange: S.Arrange, l: Ledger, collection: string)
    requires Drains(sel) && S.Rearranges(arrange)
    ensures var taken := S.Taken(sel, ItemsOf(chart, read, l, collection), arrange);
      && (forall i, j :: 0 <= i < j < |taken| ==> KeyNamed(taken[i].key) != KeyNamed(taken[j].key))
      && (forall i :: 0 <= i < |taken| ==> Place(collection, KeyNamed(taken[i].key)) in l.rows)
  {
    hide S.Taken, S.Rearranges, KeyNamed;
    var items := ItemsOf(chart, read, l, collection);
    var taken := S.Taken(sel, items, arrange);
    assert S.KeysDiffer(items);
    S.DrainTakesOnce(sel, items, arrange);
    S.DrainIsFifo(sel, items, arrange, "");
    forall i | 0 <= i < |taken|
      ensures Place(collection, KeyNamed(taken[i].key)) in l.rows && Itoa(KeyNamed(taken[i].key)) == taken[i].key
    {
      assert taken[i] in items;
      NameOfRow(l, collection, taken[i].key);
    }
  }

  lemma DrainChooses(chart: Chart, read: Reading, sel: S.Selector, arrange: S.Arrange)
    requires Drains(sel) && S.Rearranges(arrange)
    ensures Chooses(Drain(chart, read, sel, arrange))
  {
    var choose := Drain(chart, read, sel, arrange);
    forall l, c
      ensures forall i, j :: 0 <= i < j < |choose(l, c)| ==> choose(l, c)[i] != choose(l, c)[j]
      ensures forall k :: k in choose(l, c) ==> Place(c, k) in l.rows
    {
      DrainedKeys(chart, read, sel, arrange, l, c);
    }
  }

  /** The leading run of every group, as much of it as the limit leaves, and nothing else. */
  ghost predicate IsFifo(sel: S.Selector, items: seq<S.Item>, taken: seq<S.Item>) {
    && (forall m :: m in taken ==> m in items && S.Selectable(sel, m))
    && (forall g :: S.Members(taken, g) <= S.LeadingOf(sel, items, g))
    && (sel.limit > 0 ==> |taken| <= sel.limit)
    && (sel.limit <= 0 || |taken| < sel.limit ==> forall g :: S.Members(taken, g) == S.LeadingOf(sel, items, g))
  }

  lemma TakenIsFifo(sel: S.Selector, items: seq<S.Item>, arrange: S.Arrange)
    requires Drains(sel) && S.Rearranges(arrange)
    ensures IsFifo(sel, items, S.Taken(sel, items, arrange))
  {
    hide S.Taken, S.Members, S.LeadingOf, S.Rearranges;
    S.DrainIsFifo(sel, items, arrange, "");
    forall g
      ensures var taken := S.Taken(sel, items, arrange);
        && S.Members(taken, g) <= S.LeadingOf(sel, items, g)
        && (sel.limit <= 0 || |taken| < sel.limit ==> S.Members(taken, g) == S.LeadingOf(sel, items, g))
    {
      S.DrainIsFifo(sel, items, arrange, g);
    }
  }

  /** Selects by draining and sends the selection the event. Every row of the queue is settled first; what is
      drained of the rows is first in, first out; it is sent the event in the order drained, and exactly it
      when none of it is redriven; in place of those that are, more are drained, until as many are kept as
      were drained first or every message there is to drain was sent the event. No message is sent it twice,
      and what is kept is what the event left of each but those it redrove. Whatever happened, the store is
      the one those looks and events lead to, with one row a message and every handle live. */
  method ReceiveFifo(engine: Engine, collection: string, event: string, ctx: Context, now: int, read: Reading,
                     sel: S.Selector, arrange: S.Arrange, ghost book: Book)
    returns (kept: seq<Selected>, error: Option<Error>, ghost ops: seq<Op>)
    requires AtMostOneMove(engine.chart) && RedrivenEnds(engine.chart)
    requires MovesOn(engine.chart, collection, event, ctx, now)
    requires Kept(engine.Value(), book) && Drains(sel) && S.Rearranges(arrange)
    modifies engine
    ensures var start := World(old(engine.Value()), book);
      && Possible(engine.chart, start, ops) && SendsIn(ops, collection, event, ctx, now)
      && Run(engine.chart, start, ops).ledger == engine.Value()
      && Kept(engine.Value(), Run(engine.chart, start, ops).book)
      && EndsWith(engine.chart, start, ops, error)
      && kept == KeptOf(engine.chart, start, ops)
    ensures Differ(SentKeys(ops))
    ensures !CanSettle(engine.chart, old(engine.Value()), collection, now) ==> error.Some? && SentKeys(ops) == []
    ensures var looked := Surveyed(engine.chart, old(engine.Value()), collection, now);
      var items := ItemsOf(engine.chart, read, looked, collection);
      var taken := S.Taken(sel, items, arrange);
      error.None? ==>
        && IsFifo(sel, items, taken) && KeysTaken(taken) <= SentKeys(ops)
        && |kept| <= |taken| && (|kept| == |SentKeys(ops)| ==> SentKeys(ops) == KeysTaken(taken))
        && (|kept| < |taken| ==>
          && AllSettled(engine.chart, engine.Value(), collection, now)
          && forall k :: k in Drain(engine.chart, read, sel, arrange)(engine.Value(), collection) ==>
            k in SentKeys(ops))
  {
    hide Kept, Possible, Run, AtMostOneMove, RedrivenEnds, MovesOn, Chooses, S.Rearranges, S.Taken, Unfailing;
    hide CanSettle, Surveyed, AllSettled, SentKeys, KeptOf, Refilled, StopsInTime, IsFifo;
    var choose := Drain(engine.chart, read, sel, arrange);
    DrainChooses(engine.chart, read, sel, arrange);
    ghost var start := World(engine.Value(), book);
    var selection;
    kept := [];
    selection, error, ops := RunSelect(engine, collection, now, choose, book);
    LooksSendNothing(engine.chart, start, [], ops);
    LogOfNothing(engine.chart, start);
    assert [] + ops == ops;
    if error.Some? {
      return;
    }
    ghost var looks, looked := ops, engine.Value();
    TakenIsFifo(sel, ItemsOf(engine.chart, read, looked, collection), arrange);
    SelectionAreRows(choose, looked, collection);
    kept, error, ops := SendForEach(engine, collection, selection, event, ctx, now, choose, book);
    RunsJoin(engine.chart, start, looks, ops);
    EndsJoin(engine.chart, start, looks, ops, error);
    LooksBefore(engine.chart, start, looks, ops);
    ops := looks + ops;
  }
}
