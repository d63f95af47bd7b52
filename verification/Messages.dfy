/** The life of a queue's message as the SQS bundle declares it (behavior/aws/sqs/service.yaml): received,
    hidden for a while, received again under a new handle, redriven to another queue, deleted. */
module Messages {
  import opened Options
  import opened Decimals
  import opened Statecharts
  import opened LazyTimers
  import opened Queues
  import opened Custody
  import opened Sendings
  import opened Dispatch

  const COUNT := "receiveCount"
  const REAPPEAR := "reappear"

  function Count(rec: Record): int {
    if COUNT in rec.members then rec.members[COUNT] else 0
  }

  /** What the event carries under a name. */
  function Given(ctx: Context, name: string): string {
    if name in ctx then ctx[name] else ""
  }

  function Amount(ctx: Context, name: string): int {
    var n := Atoi(Given(ctx, name));
    if n.None? then 0 else n.value
  }

  /** The collection of one queue's messages. */
  function QueueOf(name: string): string {
    "msgs:" + name
  }

  predicate Redrives(rec: Record, ctx: Context) {
    && Amount(ctx, "maxReceiveCount") > 0 && Count(rec) + 1 > Amount(ctx, "maxReceiveCount")
    && Given(ctx, "deadLetter") != "" && Given(ctx, "deadLetter") != Given(ctx, "queue")
  }

  function Counted(rec: Record, ctx: Context): int {
    Count(rec) + 1
  }

  function Hidden(rec: Record, ctx: Context): int {
    Amount(ctx, "visibilityTimeout")
  }

  function DeadLetter(rec: Record, ctx: Context): string {
    QueueOf(Given(ctx, "deadLetter"))
  }

  function Redrive(): Transition {
    Transition(Redrives, "redriven",
      [Set(COUNT, Counted), Rekey, Set(COUNT, (rec, ctx) => 0), Move(DeadLetter, "visible")])
  }

  function First(): Transition {
    Transition((rec, ctx) => Count(rec) == 0, "invisible", [Set(COUNT, (rec, ctx) => 1), Arm(REAPPEAR, Hidden)])
  }

  function Again(): Transition {
    Transition((rec, ctx) => Count(rec) > 0, "invisible", [Set(COUNT, Counted), Rekey, Arm(REAPPEAR, Hidden)])
  }

  function Delete(): Transition {
    Transition((rec, ctx) => true, "deleted", [])
  }

  const RECEIVE := "RECEIVE"
  const DELETE := "DELETE"

  function Lifecycle(): Chart {
    Chart("visible", map[
      "visible" := State([], map[RECEIVE := [Redrive(), First(), Again()], DELETE := [Delete()]], false),
      "invisible" := State([Timer(REAPPEAR, "visible")], map[DELETE := [Delete()]], false),
      "redriven" := State([], map[], true),
      "deleted" := State([], map[], true)])
  }

  // ---------------------------------------------------------------- what the actions do

  lemma ActMore(actions: seq<Action>, last: Action, rec: Record, ctx: Context, now: int, issued: nat)
    ensures var before := ActAll(actions, rec, ctx, now, issued);
      var acted := Act(last, before.rec, ctx, now, before.issued);
      ActAll(actions + [last], rec, ctx, now, issued) ==
          Acted(acted.rec, before.arrivals + acted.arrivals, acted.issued)
  {
    assert (actions + [last])[..|actions|] == actions;
  }

  lemma ActTwo(a: Action, b: Action, rec: Record, ctx: Context, now: int, issued: nat)
    ensures var x := Act(a, rec, ctx, now, issued);
      var y := Act(b, x.rec, ctx, now, x.issued);
      ActAll([a, b], rec, ctx, now, issued) == Acted(y.rec, x.arrivals + y.arrivals, y.issued)
  {
    hide Act;
    ActMore([], a, rec, ctx, now, issued);
    assert [] + [a] == [a] && [a] + [b] == [a, b];
    ActMore([a], b, rec, ctx, now, issued);
    var x := Act(a, rec, ctx, now, issued);
    assert [] + x.arrivals == x.arrivals;
  }

  lemma FirstActs(rec: Record, ctx: Context, now: int, issued: nat)
    ensures ActAll(First().actions, rec, ctx, now, issued) ==
      Acted(rec.(members := rec.members[COUNT := 1],
                 deadlines := rec.deadlines[REAPPEAR := now + Amount(ctx, "visibilityTimeout")]), [], issued)
  {
    hide Amount;
    ActTwo(First().actions[0], First().actions[1], rec, ctx, now, issued);
    assert First().actions == [First().actions[0], First().actions[1]];
  }

  lemma AgainActs(rec: Record, ctx: Context, now: int, issued: nat)
    ensures ActAll(Again().actions, rec, ctx, now, issued) ==
      Acted(rec.(key := issued, members := rec.members[COUNT := Count(rec) + 1],
                 deadlines := rec.deadlines[REAPPEAR := now + Amount(ctx, "visibilityTimeout")]), [], issued + 1)
  {
    hide Amount;
    var actions := Again().actions;
    ActTwo(actions[0], actions[1], rec, ctx, now, issued);
    ActMore([actions[0], actions[1]], actions[2], rec, ctx, now, issued);
    assert actions == [actions[0], actions[1]] + [actions[2]];
  }

  lemma RedriveActs(rec: Record, ctx: Context, now: int, issued: nat)
    ensures var moved := rec.(key := issued, state := "visible", deadlines := map[],
                              members := rec.members[COUNT := Count(rec) + 1][COUNT := 0]);
      ActAll(Redrive().actions, rec, ctx, now, issued) ==
      Acted(moved, [Arrival(QueueOf(Given(ctx, "deadLetter")), moved)], issued + 1)
  {
    var actions := Redrive().actions;
    ActTwo(actions[0], actions[1], rec, ctx, now, issued);
    ActMore([actions[0], actions[1]], actions[2], rec, ctx, now, issued);
    ActMore([actions[0], actions[1]] + [actions[2]], actions[3], rec, ctx, now, issued);
    assert actions == [actions[0], actions[1]] + [actions[2]] + [actions[3]];
  }

  // ---------------------------------------------------------------- what the chart promises

  lemma WellMade()
    ensures var chart := Lifecycle();
      Closed(chart) && OneTimerPerState(chart) && AtMostOneMove(chart) && RedrivenEnds(chart)
  {
    MovesOfActions();
    hide Moves, Redrive, First, Again, Delete;
  }

  lemma MovesOfActions()
    ensures Moves(Redrive().actions) == 1
        && Moves(First().actions) == Moves(Again().actions) == Moves(Delete().actions) == 0
  {
    var rec, ctx := Record(0, 0, "", map[], map[]), map[];
    RedriveActs(rec, ctx, 0, 0);
    OneArrivalPerMove(Redrive().actions, rec, ctx, 0, 0);
    FirstActs(rec, ctx, 0, 0);
    OneArrivalPerMove(First().actions, rec, ctx, 0, 0);
    AgainActs(rec, ctx, 0, 0);
    OneArrivalPerMove(Again().actions, rec, ctx, 0, 0);
    hide ActAll, Redrive, First, Again;
  }

  lemma ChosenReceive(rec: Record, ctx: Context)
    ensures Chosen([Redrive(), First(), Again()], rec, ctx) ==
      if Redrives(rec, ctx) then Some(Redrive())
      else if Count(rec) == 0 then Some(First())
      else if Count(rec) > 0 then Some(Again()) else None
    ensures Chosen([Delete()], rec, ctx) == Some(Delete())
  {
    hide Redrives, Count;
    assert [Redrive(), First(), Again()][1..] == [First(), Again()] && [First(), Again()][1..] == [Again()];
  }

  /** What receiving makes of a visible message. */
  function Received(rec: Record, ctx: Context, now: int, issued: nat, changed: bool): Sent {
    var until := now + Amount(ctx, "visibilityTimeout");
    if Redrives(rec, ctx) then
      var moved := rec.(key := issued, state := "visible", deadlines := map[],
                        members := rec.members[COUNT := Count(rec) + 1][COUNT := 0]);
      Sent(moved.(state := "redriven"), true, [Arrival(QueueOf(Given(ctx, "deadLetter")), moved)], issued + 1, None)
    else if Count(rec) == 0 then
      Sent(rec.(members := rec.members[COUNT := 1], deadlines := rec.deadlines[REAPPEAR := until],
          state := "invisible"),
           true, [], issued, None)
    else if Count(rec) > 0 then
      Sent(rec.(key := issued, members := rec.members[COUNT := Count(rec) + 1],
                deadlines := rec.deadlines[REAPPEAR := until], state := "invisible"), true, [], issued + 1, None)
    else Sent(rec, changed, [], issued, None)
  }

  lemma ReceiveVisible(rec: Record, here: Record, changed: bool, ctx: Context, now: int, issued: nat)
    requires Settled(Lifecycle(), rec, now) == Settling(here, changed, None) && StateOf(here, Lifecycle()) == "visible"
    ensures Send(Lifecycle(), rec, RECEIVE, ctx, now, issued) == Received(here, ctx, now, issued, changed)
  {
    hide Settled, Redrives, Amount, Count;
    ChosenReceive(here, ctx);
    FirstActs(here, ctx, now, issued);
    AgainActs(here, ctx, now, issued);
    RedriveActs(here, ctx, now, issued);
    hide ActAll;
  }

  /** Deleting a message that has not come to an end. */
  lemma DeleteEnds(rec: Record, here: Record, changed: bool, ctx: Context, now: int, issued: nat)
    requires Settled(Lifecycle(), rec, now) == Settling(here, changed, None)
    requires StateOf(here, Lifecycle()) in {"visible", "invisible"}
    ensures Send(Lifecycle(), rec, DELETE, ctx, now, issued) == Sent(here.(state := "deleted"), true, [], issued, None)
  {
    hide Settled;
    ChosenReceive(here, ctx);
  }

  /** No other event moves a message, and receiving moves it only to another queue. */
  lemma ReceiveMovesOn(ctx: Context, now: int)
    ensures MovesOn(Lifecycle(), QueueOf(Given(ctx, "queue")), RECEIVE, ctx, now)
  {
    forall rec, issued, a | a in Send(Lifecycle(), rec, RECEIVE, ctx, now, issued).arrivals
      ensures a.collection != QueueOf(Given(ctx, "queue"))
    {
      ReceiveArrivals(rec, ctx, now, issued, a);
    }
    hide Send, Lifecycle;
  }

  lemma ReceiveArrivals(rec: Record, ctx: Context, now: int, issued: nat, a: Arrival)
    requires a in Send(Lifecycle(), rec, RECEIVE, ctx, now, issued).arrivals
    ensures a.collection != QueueOf(Given(ctx, "queue"))
  {
    var settled := Settled(Lifecycle(), rec, now);
    var here := settled.rec;
    hide Settled;
    if settled.error.None? && StateOf(here, Lifecycle()) == "visible" {
      ReceiveVisible(rec, here, settled.changed, ctx, now, issued);
      assert Redrives(here, ctx);
      assert QueueOf(Given(ctx, "deadLetter"))[5..] == Given(ctx, "deadLetter");
    }
  }

  /** An operation that receives can send the event to its whole selection (see SendForEach), whatever
      its context: a queue's redrive policy included. */
  lemma ReceiveFits(ctx: Context, now: int)
    ensures var chart := Lifecycle();
      && AtMostOneMove(chart) && RedrivenEnds(chart)
      && MovesOn(chart, QueueOf(Given(ctx, "queue")), RECEIVE, ctx, now)
  {
    WellMade();
    ReceiveMovesOn(ctx, now);
  }

  // ---------------------------------------------------------------- a handle that was replaced

  /** A message that can be received or is hidden. */
  predicate Living(rec: Record) {
    StateOf(rec, Lifecycle()) in {"visible", "invisible"}
  }

  /** Settling a living message makes it visible if its time is up, and changes nothing else. */
  lemma SettleLiving(rec: Record, now: int)
    requires Living(rec)
    ensures var up := StateOf(rec, Lifecycle()) == "invisible" && REAPPEAR in rec.deadlines
        && rec.deadlines[REAPPEAR] <= now;
      Settled(Lifecycle(), rec, now) ==
      Settling(if up then rec.(state := "visible", deadlines := rec.deadlines - {REAPPEAR}) else rec, up, None)
  {
    var chart := Lifecycle();
    var timers := [Timer(REAPPEAR, "visible")];
    assert |chart.states| > 1 by {
      SubsetIsNoLarger({"visible", "invisible"}, chart.states.Keys);
    }
    assert timers[1..] == [];
    assert FirstDue([], rec.deadlines, now) == None;
    assert FirstDue(timers, rec.deadlines, now) == if Due(timers[0], rec.deadlines, now) then Some(timers[0]) else None;
    if StateOf(rec, chart) == "invisible" && Due(timers[0], rec.deadlines, now) {
      var up := Fire(rec, timers[0]);
      assert FirstDue([], up.deadlines, now) == None;
      assert Settled(chart, rec, now) == Hop(chart, up, now, |chart.states|, true);
    }
  }

  lemma CurrentDelete(l: Ledger, home: Place, ctx: Context, now: int)
    requires home in l.rows && Living(l.rows[home]) && Resolve(l.aliases, home, {}) == home.key
    ensures DeliverHeld(Lifecycle(), l, home, DELETE, ctx, now).rows == l.rows - {home}
    ensures Settled(Lifecycle(), l.rows[home], now).error.None?
    ensures var sent := Send(Lifecycle(), Settled(Lifecycle(), l.rows[home], now).rec, DELETE, ctx, now, l.issued);
      sent.error.None? && sent.changed && sent.arrivals == [] && IsFinal(Lifecycle(), sent.rec)
  {
    var rec := l.rows[home];
    SettleLiving(rec, now);
    var here := Settled(Lifecycle(), rec, now).rec;
    SettleLiving(here, now);
    hide Settled, Resolve;
    DeleteEnds(here, here, false, ctx, now, l.issued);
  }

  /** Deleting a living message through a handle that was replaced never deletes it; through its current
      one always. */
  lemma StaleDeleteKeeps(l: Ledger, book: Book, id: nat, i: nat, ctx: Context, now: int)
    requires Kept(l, book) && id in book.trails && i < |book.trails[id].keys| - 1
    requires book.trails[id].Home() in l.rows && Living(l.rows[book.trails[id].Home()])
    ensures var trail := book.trails[id];
      var stale, current := Place(trail.collection, trail.keys[i]), trail.Home();
      var was := DeliverHeld(Lifecycle(), l, stale, DELETE, ctx, now);
      var should := DeliverHeld(Lifecycle(), l, current, DELETE, ctx, now);
      current in was.rows && was.rows[current].id == id && forall p :: p in should.rows ==> should.rows[p].id != id
  {
    var trail := book.trails[id];
    HandlesResolve(l, book, id, |trail.keys| - 1);
    CurrentDelete(l, trail.Home(), ctx, now);
    OnlyRow(l, book, trail.Home());
    WellMade();
    hide Settled, Send, Kept, Resolve, DeliverHeld, Lifecycle, Linked;
    StaleHandleExactly(Lifecycle(), l, book, id, i, DELETE, ctx, now);
  }

  /** A first receive hides the message under the handle it was made with. */
  lemma FirstStep(place: Place, book: Book, id: nat, ctx: Context, now: int)
    requires id in book.trails && Amount(ctx, "maxReceiveCount") == 0
    ensures var made := Record(id, place.key, "", map[], map[]);
      var until := now + Amount(ctx, "visibilityTimeout");
      var row := Record(id, place.key, "invisible", map[REAPPEAR := until], map[COUNT := 1]);
      var w := World(Ledger(map[place := made], map[], place.key + 1), book);
      && Enabled(Lifecycle(), w, Event(place, RECEIVE, ctx, now))
      && Step(Lifecycle(), w, Event(place, RECEIVE, ctx, now)) ==
           World(Ledger(map[place := row], map[], place.key + 1), book)
  {
    var made := Record(id, place.key, "", map[], map[]);
    FirstSends(made, ctx, now, place.key + 1);
    hide Lifecycle, Settled, Send, Amount;
    RewriteStep(Lifecycle(), place, book, made, ctx, now);
  }

  lemma FirstSends(made: Record, ctx: Context, now: int, issued: nat)
    requires made.state == "" && made.deadlines == map[] && made.members == map[] && Amount(ctx, "maxReceiveCount") == 0
    ensures var until := now + Amount(ctx, "visibilityTimeout");
      var row := made.(state := "invisible", deadlines := map[REAPPEAR := until], members := map[COUNT := 1]);
      Send(Lifecycle(), made, RECEIVE, ctx, now, issued) == Sent(row, true, [], issued, None)
          && !IsFinal(Lifecycle(), row)
  {
    SettleLiving(made, now);
    hide Settled, Amount;
    ReceiveVisible(made, made, false, ctx, now, issued);
    hide Send;
  }

  /** An event that only rewrites the one message of a store. */
  lemma RewriteStep(chart: Chart, place: Place, book: Book, row: Record, ctx: Context, now: int)
    requires row.id in book.trails && row.key == place.key
    requires var sent := Send(chart, row, RECEIVE, ctx, now, place.key + 1);
      && sent == Sent(sent.rec, true, [], place.key + 1, None) && !IsFinal(chart, sent.rec) && sent.rec.key == place.key
    ensures var rec := Send(chart, row, RECEIVE, ctx, now, place.key + 1).rec;
      var w := World(Ledger(map[place := row], map[], place.key + 1), book);
      && Enabled(chart, w, Event(place, RECEIVE, ctx, now))
      && Step(chart, w, Event(place, RECEIVE, ctx, now)) == World(Ledger(map[place := rec], map[], place.key + 1), book)
  {
    hide Send, IsFinal;
    var rec := Send(chart, row, RECEIVE, ctx, now, place.key + 1).rec;
    assert map[place := row][place := rec] == map[place := rec];
  }

  /** A later one gives it a new handle, which the one before leads to. */
  lemma AgainStep(place: Place, book: Book, row: Record, ctx: Context, now: int) returns (rec: Record)
    requires row.id in book.trails && Amount(ctx, "maxReceiveCount") == 0
    requires row.key == place.key && row.state == "invisible" && Count(row) > 0
    requires REAPPEAR in row.deadlines && row.deadlines[REAPPEAR] <= now
    ensures rec.id == row.id && rec.state == "invisible"
    ensures var key := place.key + 1;
      var w := World(Ledger(map[place := row], map[], key), book);
      && Enabled(Lifecycle(), w, Event(place, RECEIVE, ctx, now))
      && Step(Lifecycle(), w, Event(place, RECEIVE, ctx, now)) ==
        World(Ledger(map[Place(place.collection, key) := rec], map[place := key], key + 1),
              BookRekey(book, row.id, place, key))
  {
    hide Settled, Send, Lifecycle, Amount, Count, Step, Enabled;
    AgainSends(row, ctx, now, place.key + 1);
    rec := Send(Lifecycle(), row, RECEIVE, ctx, now, place.key + 1).rec;
    RekeyStep(Lifecycle(), place, book, row, ctx, now);
  }

  lemma AgainSends(row: Record, ctx: Context, now: int, issued: nat)
    requires row.state == "invisible" && Count(row) > 0 && Amount(ctx, "maxReceiveCount") == 0
    requires REAPPEAR in row.deadlines && row.deadlines[REAPPEAR] <= now
    ensures var sent := Send(Lifecycle(), row, RECEIVE, ctx, now, issued);
      && sent == Sent(sent.rec, true, [], issued + 1, None) && !IsFinal(Lifecycle(), sent.rec)
      && sent.rec.id == row.id && sent.rec.key == issued && sent.rec.state == "invisible"
  {
    var here := row.(state := "visible", deadlines := row.deadlines - {REAPPEAR});
    SettleLiving(row, now);
    hide Settled, Amount;
    ReceiveVisible(row, here, true, ctx, now, issued);
    hide Send;
  }

  /** An event that only gives the one message of a store a new key. */
  lemma RekeyStep(chart: Chart, place: Place, book: Book, row: Record, ctx: Context, now: int)
    requires row.id in book.trails && row.key == place.key
    requires var sent := Send(chart, row, RECEIVE, ctx, now, place.key + 1);
      && sent == Sent(sent.rec, true, [], place.key + 2, None) && !IsFinal(chart, sent.rec)
           && sent.rec.key == place.key + 1
    ensures var key, rec := place.key + 1, Send(chart, row, RECEIVE, ctx, now, place.key + 1).rec;
      var w := World(Ledger(map[place := row], map[], key), book);
      && Enabled(chart, w, Event(place, RECEIVE, ctx, now))
      && Step(chart, w, Event(place, RECEIVE, ctx, now)) ==
        World(Ledger(map[Place(place.collection, key) := rec], map[place := key], key + 1),
              BookRekey(book, row.id, place, key))
  {
    hide Send, IsFinal;
    var rec := Send(chart, row, RECEIVE, ctx, now, place.key + 1).rec;
    assert (map[place := row] - {place})[Place(place.collection, place.key + 1) := rec]
        == map[Place(place.collection, place.key + 1) := rec];
  }

  /** A message made, received, and received again once its time is up: it has a second handle. */
  function TwiceReceived(id: nat, ctx: Context, first: int, again: int): seq<Op> {
    var place := Place(QueueOf(Given(ctx, "queue")), 0);
    [Create(place.collection, id, map[]), Event(place, RECEIVE, ctx, first)] + [Event(place, RECEIVE, ctx, again)]
  }

  /** The input: after two receives the message is deleted through the handle of the first, and its row
      stays. */
  lemma FirstHandleDeletesNothing(id: nat, ctx: Context, first: int, again: int, now: int)
    requires Amount(ctx, "maxReceiveCount") == 0 && again >= first + Amount(ctx, "visibilityTimeout")
    ensures var ops, queue := TwiceReceived(id, ctx, first, again), QueueOf(Given(ctx, "queue"));
      var w := Run(Lifecycle(), NOTHING, ops);
      && Possible(Lifecycle(), NOTHING, ops) && w.book.trails == map[id := Trail(queue, [0, 1])]
      && var l := DeliverHeld(Lifecycle(), w.ledger, Place(queue, 0), DELETE, ctx, now);
      Place(queue, 1) in l.rows && l.rows[Place(queue, 1)].id == id
  {
    var chart, place := Lifecycle(), Place(QueueOf(Given(ctx, "queue")), 0);
    var create, receive := Create(place.collection, id, map[]), Event(place, RECEIVE, ctx, first);
    var made, row := Record(id, 0, "", map[], map[]),
      Record(id, 0, "invisible", map[REAPPEAR := first + Amount(ctx, "visibilityTimeout")], map[COUNT := 1]);
    var book := BookMove(NOTHING.book, id, place.collection, 0);
    FirstStep(place, book, id, ctx, first);
    var last := AgainStep(place, book, row, ctx, again);
    hide Lifecycle, Amount, Step, Enabled, Run, Possible, DeliverHeld, Kept;
    MadeStep(chart, place, id);
    ThreeSteps(chart, create, receive, Event(place, RECEIVE, ctx, again));
    FromNothingKept(TwiceReceived(id, ctx, first, again));
    StaleAfter(Run(chart, NOTHING, TwiceReceived(id, ctx, first, again)), id, place, last, ctx, now);
  }

  lemma ThreeSteps(chart: Chart, a: Op, b: Op, c: Op)
    requires Enabled(chart, NOTHING, a) && Enabled(chart, Step(chart, NOTHING, a), b)
    requires Enabled(chart, Step(chart, Step(chart, NOTHING, a), b), c)
    ensures Possible(chart, NOTHING, [a, b] + [c])
    ensures Run(chart, NOTHING, [a, b] + [c]) == Step(chart, Step(chart, Step(chart, NOTHING, a), b), c)
  {
    hide Step, Enabled;
    RunNothing(chart, NOTHING);
    RunOneMore(chart, NOTHING, [], a);
    assert [] + [a] == [a] && [a] + [b] == [a, b];
    RunOneMore(chart, NOTHING, [a], b);
    RunOneMore(chart, NOTHING, [a, b], c);
  }

  lemma MadeStep(chart: Chart, place: Place, id: nat)
    requires place.key == 0
    ensures var create := Create(place.collection, id, map[]);
      && Enabled(chart, NOTHING, create)
      && Step(chart, NOTHING, create) == World(Ledger(map[place := Record(id, 0, "", map[], map[])], map[], 1),
                                               BookMove(NOTHING.book, id, place.collection, 0))
  {
  }

  lemma StaleAfter(w: World, id: nat, place: Place, last: Record, ctx: Context, now: int)
    requires place.key == 0 && Kept(w.ledger, w.book) && last.id == id && last.state == "invisible"
    requires w == World(Ledger(map[Place(place.collection, 1) := last], map[place := 1], 2),
                        BookRekey(BookMove(NOTHING.book, id, place.collection, 0), id, place, 1))
    ensures w.book.trails == map[id := Trail(place.collection, [0, 1])]
    ensures var l := DeliverHeld(Lifecycle(), w.ledger, place, DELETE, ctx, now);
      Place(place.collection, 1) in l.rows && l.rows[Place(place.collection, 1)].id == id
  {
    hide Lifecycle, Settled, Send, DeliverHeld, Kept;
    assert [0] + [1] == [0, 1];
    assert w.book.trails == map[id := Trail(place.collection, [0, 1])];
    StaleDeleteKeeps(w.ledger, w.book, id, 0, ctx, now);
  }

  lemma FromNothingKept(ops: seq<Op>)
    requires Possible(Lifecycle(), NOTHING, ops)
    ensures Kept(Run(Lifecycle(), NOTHING, ops).ledger, Run(Lifecycle(), NOTHING, ops).book)
  {
    WellMade();
    hide Lifecycle, Run, Possible;
    assert Kept(NOTHING.ledger, NOTHING.book);
    RunKeeps(Lifecycle(), NOTHING, ops);
  }
}
