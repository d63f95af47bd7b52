/** The look a selection takes at a collection: every row is settled and written back, and the selection is
    made among the rows after it (internal/engine/select.go). */
module Surveys {
  import opened Options
  import opened Statecharts
  import opened Queues
  import opened Custody
  import opened LazyTimers
  import opened Sendings

  /** How a selection chooses among the settled rows of a collection: their keys, none twice. */
  type Chooser = (Ledger, string) -> seq<nat>

  ghost predicate Chooses(choose: Chooser) {
    forall l, c :: Differ(choose(l, c)) && forall k :: k in choose(l, c) ==> Place(c, k) in l.rows
  }

  function Selection(choose: Chooser, l: Ledger, collection: string): (ss: seq<Selected>)
    requires Chooses(choose)
    ensures KeysOf(ss) == choose(l, collection)
  {
    var keys := choose(l, collection);
    seq(|keys|, i requires 0 <= i < |keys| =>
      assert keys[i] in keys; Selected(keys[i], l.rows[Place(collection, keys[i])]))
  }

  ghost predicate AreRows(ss: seq<Selected>, l: Ledger, collection: string) {
    && Differ(KeysOf(ss))
    && (forall s :: s in ss ==> Place(collection, s.key) in l.rows && l.rows[Place(collection, s.key)] == s.rec)
  }

  lemma SelectionAreRows(choose: Chooser, l: Ledger, collection: string)
    requires Chooses(choose)
    ensures AreRows(Selection(choose, l, collection), l, collection)
  {
    var keys, ss := choose(l, collection), Selection(choose, l, collection);
    forall s | s in ss
      ensures Place(collection, s.key) in l.rows && l.rows[Place(collection, s.key)] == s.rec
    {
      var i :| 0 <= i < |ss| && ss[i] == s;
      assert keys[i] in keys;
    }
  }

  // ---------------------------------------------------------------- what a survey does to the store

  /** Every row of the collection can be settled. */
  ghost predicate CanSettle(chart: Chart, l: Ledger, collection: string, now: int) {
    forall p :: p in l.rows && p.collection == collection ==> Settled(chart, l.rows[p], now).error.None?
  }

  /** The store with every row of the collection settled. */
  function Surveyed(chart: Chart, l: Ledger, collection: string, now: int): Ledger {
    l.(rows := map p | p in l.rows ::
      if p.collection == collection then Settled(chart, l.rows[p], now).rec else l.rows[p])
  }

  /** Settling finds nothing to do in the collection. */
  ghost predicate AllSettled(chart: Chart, l: Ledger, collection: string, now: int) {
    forall p :: p in l.rows && p.collection == collection ==>
      Settled(chart, l.rows[p], now) == Settling(l.rows[p], false, None)
  }

  lemma SurveyedIsSettled(chart: Chart, l: Ledger, collection: string, now: int)
    requires CanSettle(chart, l, collection, now)
    ensures AllSettled(chart, Surveyed(chart, l, collection, now), collection, now)
  {
    forall p | p in l.rows && p.collection == collection
      ensures var rec := Settled(chart, l.rows[p], now).rec; Settled(chart, rec, now) == Settling(rec, false, None)
    {
      SettlingIsIdempotent(chart, l.rows[p], now);
    }
    hide Settled;
  }

  /** Settles one row, writing it back if that changed it. */
  method LookAt(engine: Engine, at: Place, now: int) returns (error: Option<Error>)
    requires at in engine.rows
    modifies engine
    ensures engine.Value() == Looked(engine.chart, old(engine.Value()), at, now)
    ensures error == Settled(engine.chart, old(engine.rows[at]), now).error
  {
    var live := new LiveRecord(engine.rows[at]);
    var changed;
    changed, error := live.Settle(engine.chart, now);
    if error.None? && changed {
      engine.rows := engine.rows[at := live.Value()];
    }
  }

  /** All rows of the collection but those still to do are settled. */
  ghost predicate IsSurveying(chart: Chart, was: Ledger, l: Ledger, collection: string, now: int, todo: set<Place>) {
    && l == was.(rows := l.rows) && l.rows.Keys == was.rows.Keys
    && (forall p :: p in todo ==> p in was.rows && p.collection == collection)
    && forall p :: p in was.rows ==>
      if p.collection != collection || p in todo then l.rows[p] == was.rows[p]
      else Settled(chart, was.rows[p], now).error.None? && l.rows[p] == Settled(chart, was.rows[p], now).rec
  }

  lemma LookedRow(chart: Chart, l: Ledger, at: Place, now: int)
    requires at in l.rows && Settled(chart, l.rows[at], now).error.None?
    ensures Looked(chart, l, at, now) == l.(rows := l.rows[at := Settled(chart, l.rows[at], now).rec])
  {
    ChangedExactly(chart, l.rows[at], now, |chart.states| + 1, false);
    hide Hop;
    assert l.rows[at := l.rows[at]] == l.rows;
  }

  lemma SurveyOneMore(chart: Chart, was: Ledger, l: Ledger, collection: string, now: int, todo: set<Place>, at: Place)
    requires IsSurveying(chart, was, l, collection, now, todo) && at in todo
    ensures at in l.rows && l.rows[at] == was.rows[at]
    ensures Settled(chart, l.rows[at], now).error.None? ==>
      IsSurveying(chart, was, Looked(chart, l, at, now), collection, now, todo - {at})
    ensures Settled(chart, l.rows[at], now).error.Some? ==> !CanSettle(chart, was, collection, now)
  {
    hide Settled, Looked;
    if Settled(chart, l.rows[at], now).error.None? {
      LookedRow(chart, l, at, now);
    }
  }

  lemma SurveyDone(chart: Chart, was: Ledger, l: Ledger, collection: string, now: int)
    requires IsSurveying(chart, was, l, collection, now, {})
    ensures CanSettle(chart, was, collection, now) && l == Surveyed(chart, was, collection, now)
    ensures AllSettled(chart, l, collection, now)
  {
    SurveyedIsSettled(chart, was, collection, now);
    hide Settled, AllSettled;
    assert l.rows == Surveyed(chart, was, collection, now).rows;
  }

  /** Settles every row of a collection, writing back those it changed, and chooses among them. It stops at a
      row that cannot be settled. */
  method RunSelect(engine: Engine, collection: string, now: int, choose: Chooser, ghost book: Book)
    returns (selection: seq<Selected>, error: Option<Error>, ghost ops: seq<Op>)
    requires AtMostOneMove(engine.chart) && Kept(engine.Value(), book) && Chooses(choose)
    modifies engine
    ensures LooksIn(ops, collection, now)
    ensures Possible(engine.chart, World(old(engine.Value()), book), ops)
    ensures Run(engine.chart, World(old(engine.Value()), book), ops) == World(engine.Value(), book)
    ensures EndsWith(engine.chart, World(old(engine.Value()), book), ops, error)
    ensures Kept(engine.Value(), book) && engine.rows.Keys == old(engine.rows.Keys)
    ensures error.None? <==> CanSettle(engine.chart, old(engine.Value()), collection, now)
    ensures error.None? ==>
      && engine.Value() == Surveyed(engine.chart, old(engine.Value()), collection, now)
      && AllSettled(engine.chart, engine.Value(), collection, now)
      && selection == Selection(choose, engine.Value(), collection)
  {
    hide Kept, Possible, Run, Chooses, AtMostOneMove, Settled, AllSettled, CanSettle, Surveyed, Unfailing, Looked;
    ghost var start := World(engine.Value(), book);
    ops, error, selection := [], None, [];
    RunNothing(engine.chart, start);
    NoneFail(engine.chart, start);
    var todo := set p | p in engine.rows && p.collection == collection;
    while todo != {}
      invariant error.None? && IsSurveying(engine.chart, start.ledger, engine.Value(), collection, now, todo)
      invariant LooksIn(ops, collection, now)
      invariant Possible(engine.chart, start, ops) && Unfailing(engine.chart, start, ops)
      invariant Run(engine.chart, start, ops) == World(engine.Value(), book)
      invariant Kept(engine.Value(), book)
      decreases |todo|
    {
      var at :| at in todo;
      Shrinks(todo, at);
      SurveyOneMore(engine.chart, start.ledger, engine.Value(), collection, now, todo, at);
      todo := todo - {at};
      RunOneMore(engine.chart, start, ops, Look(at, now));
      EndsOneMore(engine.chart, start, ops, Look(at, now));
      LookKeeps(engine.chart, engine.Value(), book, at, now);
      ops := ops + [Look(at, now)];
      ghost var before := engine.Value();
      error := LookAt(engine, at, now);
      if error.Some? {
        FailedLook(engine.chart, before, at, now);
        return;
      }
    }
    SurveyDone(engine.chart, start.ledger, engine.Value(), collection, now);
    selection := Selection(choose, engine.Value(), collection);
  }

  /** A look that fails writes nothing. */
  lemma FailedLook(chart: Chart, l: Ledger, at: Place, now: int)
    requires at in l.rows && Settled(chart, l.rows[at], now).error.Some?
    ensures Looked(chart, l, at, now) == l
  {
  }

  lemma NoneFail(chart: Chart, w: World)
    ensures Unfailing(chart, w, [])
  {
  }
}
