/** The two ways an operation sends an event: to every record of its selection, refilling what a
    redrive used up, and to the one record a caller's handle leads to (internal/engine/effects.go). */
module Dispatch {
  import opened Options
  import opened Statecharts
  import opened Queues
  import opened Custody
  import opened LazyTimers
  import opened Sendings
  import opened Surveys

  // ---------------------------------------------------------------- one addressed record

  /** The record a handle resolves to is settled and sent the event; its outcome is written back over
      the handle the caller gave, not over the key it resolved to. */
  function DeliverHeld(chart: Chart, l: Ledger, held: Place, event: string, ctx: Context, now: int): Ledger {
    var at := Place(held.collection, Resolve(l.aliases, held, {}));
    if at !in l.rows then l
    else
      var settled := Settled(chart, l.rows[at], now);
      if settled.error.Some? then l else Deliver(chart, l, held, settled.rec, event, ctx, now)
  }

  method SendToOne(engine: Engine, held: Place, event: string, ctx: Context, now: int)
    returns (found: bool, error: Option<Error>)
    modifies engine
    ensures engine.Value() == DeliverHeld(engine.chart, old(engine.Value()), held, event, ctx, now)
    ensures found <==> Place(held.collection, Resolve(old(engine.aliases), held, {})) in old(engine.rows)
    ensures !found ==> error.None?
    ensures found ==>
      var at := Place(held.collection, Resolve(old(engine.aliases), held, {}));
      var settled := Settled(engine.chart, old(engine.rows)[at], now);
      var sent := Send(engine.chart, settled.rec, event, ctx, now, old(engine.issued));
      error == if settled.error.Some? then settled.error else sent.error
  {
    error := None;
    var key := engine.ResolveKeyAlias(held.collection, held.key);
    var at := Place(held.collection, key);
    found := at in engine.rows;
    if !found {
      return;
    }
    var live := new LiveRecord(engine.rows[at]);
    var settledIt, failed := live.Settle(engine.chart, now);
    if failed.Some? {
      error := failed;
      return;
    }
    var changed, moved;
    changed, moved, error := engine.SendEvent(live, event, ctx, now);
    if error.Some? {
      return;
    }
    engine.SettleWrite(held, live, changed, moved);
  }

  /** What the event makes of the record that a handle of message id resolves to. */
  function SentTo(chart: Chart, l: Ledger, book: Book, id: nat, event: string, ctx: Context, now: int): Sent
    requires id in book.trails && book.trails[id].Started() && book.trails[id].Home() in l.rows
  {
    Send(chart, Settled(chart, l.rows[book.trails[id].Home()], now).rec, event, ctx, now, l.issued)
  }

  /** The event leaves the message where it is, under the key it has. */
  predicate StaysPut(chart: Chart, key: nat, sent: Sent) {
    sent.error.Some? || !sent.changed || (sent.arrivals == [] && !IsFinal(chart, sent.rec) && sent.rec.key == key)
  }

  /** The current handle: the event is delivered to the message's row, and everything is kept. */
  lemma CurrentHandleKeeps(chart: Chart, l: Ledger, book: Book, id: nat, event: string, ctx: Context, now: int)
    requires AtMostOneMove(chart) && Kept(l, book) && id in book.trails
    requires book.trails[id].Started() && book.trails[id].Home() in l.rows
    requires Settled(chart, l.rows[book.trails[id].Home()], now).error.None?
    requires MovesAway(book.trails[id].Home(), SentTo(chart, l, book, id, event, ctx, now))
    ensures Kept(DeliverHeld(chart, l, book.trails[id].Home(), event, ctx, now),
                 Booked(chart, book, book.trails[id].Home(), id, SentTo(chart, l, book, id, event, ctx, now)))
  {
    var trail := book.trails[id];
    var home := trail.Home();
    assert Linked(l, book, id, trail);
    HandlesResolve(l, book, id, |trail.keys| - 1);
    KeyOfRow(l, book, home);
    SettleKeepsIdentity(chart, l.rows[home], now, |chart.states| + 1, false);
    hide Kept, Send, Settled, Booked, Deliver;
    DeliveryKeeps(chart, l, book, home, Settled(chart, l.rows[home], now).rec, event, ctx, now);
  }

  /** A handle replaced since it was given out does what the current one would to the rows if and only
      if the event leaves the message where it is under its key: one that ends the message leaves it
      there, and one that moves or rekeys it leaves a second row behind. */
  lemma StaleHandleExactly(chart: Chart, l: Ledger, book: Book, id: nat, i: nat, event: string, ctx: Context, now: int)
    requires AtMostOneMove(chart) && Kept(l, book) && id in book.trails && i < |book.trails[id].keys| - 1
    requires book.trails[id].Home() in l.rows
    requires Settled(chart, l.rows[book.trails[id].Home()], now).error.None?
    requires MovesAway(book.trails[id].Home(), SentTo(chart, l, book, id, event, ctx, now))
    ensures var trail, sent := book.trails[id], SentTo(chart, l, book, id, event, ctx, now);
      var stale, current := Place(trail.collection, trail.keys[i]), trail.Home();
      var was, should := DeliverHeld(chart, l, stale, event, ctx, now), DeliverHeld(chart, l, current, event, ctx, now);
      && (was.rows == should.rows <==> StaysPut(chart, current.key, sent))
      && (!StaysPut(chart, current.key, sent) ==> current in was.rows && was.rows[current].id == id)
  {
    var trail := book.trails[id];
    var stale, home := Place(trail.collection, trail.keys[i]), trail.Home();
    assert Linked(l, book, id, trail);
    HandlesResolve(l, book, id, i);
    HandlesResolve(l, book, id, |trail.keys| - 1);
    KeyOfRow(l, book, home);
    StaleHasNoRow(l, book, id, i);
    var rec := Settled(chart, l.rows[home], now).rec;
    SettleKeepsIdentity(chart, l.rows[home], now, |chart.states| + 1, false);
    SendKeepsIdentity(chart, rec, event, ctx, now, l.issued);
    assert trail.keys[i] < l.issued;
    hide Kept, Send, Settled, Linked;
    StaleWrite(chart, l, stale, home, id, SentTo(chart, l, book, id, event, ctx, now));
  }

  lemma StaleHasNoRow(l: Ledger, book: Book, id: nat, i: nat)
    requires Kept(l, book) && id in book.trails && i < |book.trails[id].keys| - 1
    ensures Place(book.trails[id].collection, book.trails[id].keys[i]) !in l.rows
    ensures book.trails[id].keys[i] != book.trails[id].Current() && book.trails[id].keys[i] < l.issued
  {
    var trail := book.trails[id];
    var stale := Place(trail.collection, trail.keys[i]);
    assert Linked(l, book, id, trail);
    if stale in l.rows {
      HomeOf(l, book, stale);
    }
  }

  lemma StaleWrite(chart: Chart, l: Ledger, stale: Place, home: Place, id: nat, sent: Sent)
    requires home in l.rows && l.rows[home].id == id && stale !in l.rows && stale.collection == home.collection
    requires stale.key < l.issued <= sent.issued && |sent.arrivals| <= 1
    requires !sent.changed || sent.error.Some? ==> sent.arrivals == []
    requires KeyFrom(sent.rec, home.key, id, l.issued, sent.issued)
    requires forall a :: a in sent.arrivals ==> KeyFrom(a.rec, home.key, id, l.issued, sent.issued)
    requires MovesAway(home, sent)
    ensures var l1 := AfterSend(l, sent);
      var was := if sent.error.Some? then l1
          else WriteBack(chart, l1, stale, sent.rec, sent.changed, sent.arrivals != []);
      var should := if sent.error.Some? then l1
          else WriteBack(chart, l1, home, sent.rec, sent.changed, sent.arrivals != []);
      && (was.rows == should.rows <==> StaysPut(chart, home.key, sent))
      && (!StaysPut(chart, home.key, sent) ==> home in was.rows && was.rows[home].id == id)
  {
    assert PutAll(l.rows, []) == l.rows;
    if sent.arrivals != [] {
      var a := sent.arrivals[0];
      assert sent.arrivals == [a] && a in sent.arrivals;
      PutOne(l.rows, a);
      var put := l.rows[Place(a.collection, a.rec.key) := a.rec];
      assert home in put - {stale} && home !in put - {home};
    } else {
      assert l.rows - {stale} == l.rows;
      assert home !in l.rows - {home};
      if sent.rec.key != home.key {
        assert home in l.rows[Place(home.collection, sent.rec.key) := sent.rec];
        assert home !in (l.rows - {home})[Place(home.collection, sent.rec.key) := sent.rec];
      }
    }
  }

  // ---------------------------------------------------------------- the whole selection

  /** A redriven message has come to an end where it was. */
  ghost predicate RedrivenEnds(chart: Chart) {
    chart.initial in chart.states && ("redriven" in chart.states ==> chart.states["redriven"].final)
  }

  /** This event, sent in the collection, moves no record to the row it is in, and redrives none to the
      collection it is in. */
  ghost predicate MovesOn(chart: Chart, collection: string, event: string, ctx: Context, now: int) {
    forall rec, issued, a :: a in Send(chart, rec, event, ctx, now, issued).arrivals && a.collection == collection ==>
      a.rec.key != rec.key && StateOf(Send(chart, rec, event, ctx, now, issued).rec, chart) != "redriven"
  }

  ghost function Unseen(l: Ledger, collection: string, seen: set<nat>): set<Place> {
    set p | p in l.rows && p.collection == collection && p.key !in seen
  }

  lemma SendEndsDefined(chart: Chart, rec: Record, event: string, ctx: Context, now: int, issued: nat)
    requires chart.initial in chart.states
    ensures var sent := Send(chart, rec, event, ctx, now, issued);
      sent.error.None? ==> StateOf(sent.rec, chart) in chart.states
  {
    NothingLeftDue(chart, rec, now, |chart.states| + 1, false);
  }

  /** A redriven message leaves the collection, unless the event did not change it. */
  lemma RedrivenLeaves(chart: Chart, l: Ledger, from: Place, rec: Record, event: string, ctx: Context,
          now: int, seen: set<nat>)
    requires RedrivenEnds(chart) && MovesOn(chart, from.collection, event, ctx, now)
    requires from in l.rows && from.key !in seen
    requires var sent := Send(chart, rec, event, ctx, now, l.issued);
      sent.error.None? && StateOf(sent.rec, chart) == "redriven"
    ensures |Unseen(Deliver(chart, l, from, rec, event, ctx, now), from.collection, seen + {from.key})|
          < |Unseen(l, from.collection, seen)|
  {
    var sent := Send(chart, rec, event, ctx, now, l.issued);
    SendEndsDefined(chart, rec, event, ctx, now, l.issued);
    hide Send;
    PutsElsewhere(l.rows, sent.arrivals, from.collection);
    var l' := Deliver(chart, l, from, rec, event, ctx, now);
    assert Unseen(l', from.collection, seen + {from.key}) <= Unseen(l, from.collection, seen) - {from};
    SubsetIsNoLarger(Unseen(l', from.collection, seen + {from.key}), Unseen(l, from.collection, seen) - {from});
  }

  lemma {:induction false} PutsElsewhere(rows: map<Place, Record>, arrivals: seq<Arrival>, collection: string)
    requires forall a :: a in arrivals ==> a.collection != collection
    ensures forall p: Place :: p.collection == collection ==> (p in PutAll(rows, arrivals) <==> p in rows)
  {
    if arrivals != [] {
      PutsElsewhere(rows, arrivals[..|arrivals| - 1], collection);
      assert arrivals[|arrivals| - 1] in arrivals;
    }
  }

  /** Sends one selected record the event and persists the outcome. */
  method SendAndWrite(engine: Engine, from: Place, live: LiveRecord, event: string, ctx: Context, now: int)
    returns (error: Option<Error>)
    modifies engine, live
    ensures var sent := Send(engine.chart, old(live.Value()), event, ctx, now, old(engine.issued));
      error == sent.error && live.Value() == sent.rec
    ensures engine.Value() == Deliver(engine.chart, old(engine.Value()), from, old(live.Value()), event, ctx, now)
  {
    var changed, moved;
    changed, moved, error := engine.SendEvent(live, event, ctx, now);
    if error.None? {
      engine.SettleWrite(from, live, changed, moved);
    }
  }

  // ---------------------------------------------------------------- a fresh selection

  /** The records of a selection that were not sent the event before. */
  function Fresh(ss: seq<Selected>, sent: set<nat>): seq<Selected> {
    if ss == [] then []
    else
      var rest := Fresh(ss[..|ss| - 1], sent);
      if ss[|ss| - 1].key in sent then rest else rest + [ss[|ss| - 1]]
  }

  function Few(ss: seq<Selected>, need: nat): seq<Selected> {
    if |ss| > need then ss[..need] else ss
  }

  lemma {:induction false} FreshAreUnsent(ss: seq<Selected>, sent: set<nat>, l: Ledger, collection: string)
    requires AreRows(ss, l, collection)
    ensures AreRows(Fresh(ss, sent), l, collection)
    ensures forall s :: s in Fresh(ss, sent) <==> s in ss && s.key !in sent
  {
    if ss != [] {
      var init, last := ss[..|ss| - 1], ss[|ss| - 1];
      assert ss == init + [last];
      FreshAreUnsent(init, sent, l, collection);
      assert forall s :: s in init ==> s.key != last.key;
    }
  }

  lemma RestDiffers(ss: seq<Selected>)
    requires ss != [] && Differ(KeysOf(ss))
    ensures KeysOf(ss[1..]) == KeysOf(ss)[1..] && Differ(KeysOf(ss[1..]))
    ensures forall s :: s in ss[1..] ==> s.key != ss[0].key
  {
    assert KeysOf(ss[1..]) == KeysOf(ss)[1..];
    forall s | s in ss[1..]
      ensures s.key != ss[0].key
    {
      var i :| 0 <= i < |ss[1..]| && ss[1..][i] == s;
      assert KeysOf(ss)[i + 1] == s.key && KeysOf(ss)[0] == ss[0].key;
    }
  }

  lemma RestAreRows(ss: seq<Selected>, l: Ledger, l': Ledger, book: Book, collection: string)
    requires ss != [] && AreRows(ss, l, collection) && Kept(l, book)
    requires OthersUntouched(l, l', ss[0].rec.id)
    ensures AreRows(ss[1..], l', collection) && KeysOf(ss[1..]) == KeysOf(ss)[1..]
    ensures forall s :: s in ss[1..] ==> s.key != ss[0].key
  {
    assert ss[0] in ss;
    RestDiffers(ss);
    hide Differ, Kept;
    var from := Place(collection, ss[0].key);
    OnlyRow(l, book, from);
    forall s | s in ss[1..]
      ensures Place(collection, s.key) in l'.rows && l'.rows[Place(collection, s.key)] == s.rec
    {
      assert s in ss;
      assert s.key != ss[0].key;
    }
  }

  lemma UnseenByKeys(l: Ledger, l': Ledger, collection: string, seen: set<nat>)
    requires l.rows.Keys == l'.rows.Keys
    ensures Unseen(l, collection, seen) == Unseen(l', collection, seen)
  {
    assert forall p :: p in l.rows.Keys <==> p in l'.rows.Keys;
  }

  /** A fresh selection of at most `need` records, less those already sent the event. */
  method Refill(engine: Engine, collection: string, now: int, choose: Chooser, sent: set<nat>,
          need: nat, ghost book: Book)
    returns (chosen: seq<Selected>, error: Option<Error>, ghost looks: seq<Op>)
    requires AtMostOneMove(engine.chart) && Kept(engine.Value(), book) && Chooses(choose) && need >= 1
    modifies engine
    ensures LooksIn(looks, collection, now)
    ensures Possible(engine.chart, World(old(engine.Value()), book), looks)
    ensures Run(engine.chart, World(old(engine.Value()), book), looks) == World(engine.Value(), book)
    ensures EndsWith(engine.chart, World(old(engine.Value()), book), looks, error)
    ensures Kept(engine.Value(), book) && engine.rows.Keys == old(engine.rows.Keys)
    ensures AreRows(chosen, engine.Value(), collection) && forall s :: s in chosen ==> s.key !in sent
    ensures error.None? ==>
      && AllSettled(engine.chart, engine.Value(), collection, now)
      && chosen == Few(Fresh(Selection(choose, engine.Value(), collection), sent), need)
      && (chosen == [] ==> forall k :: k in choose(engine.Value(), collection) ==> k in sent)
  {
    hide Kept, Possible, Run, AtMostOneMove, Selection, Fresh, Resolve, AllSettled, CanSettle, EndsWith, Surveyed;
    var all;
    chosen := [];
    all, error, looks := RunSelect(engine, collection, now, choose, book);
    if error.Some? {
      return;
    }
    SelectionAreRows(choose, engine.Value(), collection);
    FreshAreUnsent(all, sent, engine.Value(), collection);
    chosen := Fresh(all, sent);
    if |chosen| > need {
      assert forall s :: s in chosen[..need] ==> s in chosen;
      chosen := chosen[..need];
    } else if chosen == [] {
      NoneFresh(choose, engine.Value(), collection, sent);
    }
  }

  lemma NoneFresh(choose: Chooser, l: Ledger, collection: string, sent: set<nat>)
    requires Chooses(choose) && Fresh(Selection(choose, l, collection), sent) == []
    ensures forall k :: k in choose(l, collection) ==> k in sent
  {
    var all := Selection(choose, l, collection);
    SelectionAreRows(choose, l, collection);
    FreshAreUnsent(all, sent, l, collection);
    hide Fresh, Selection;
    forall k | k in choose(l, collection)
      ensures k in sent
    {
      var i :| 0 <= i < |all| && KeysOf(all)[i] == k;
      assert all[i] in all && all[i] !in Fresh(all, sent);
    }
  }

  // ---------------------------------------------------------------- what refills send

  /** The i-th key was sent in its turn among what a look before it left to choose: all the rows settled, the
      keys that had not been sent, in the order of choice, and no more of them than were still wanted. */
  ghost predicate ChosenAt(chart: Chart, choose: Chooser, w: World, ops: seq<Op>, collection: string, now: int,
                           want: nat, at: nat, i: nat)
    requires Chooses(choose)
  {
    && at <= |ops|
    && var before, l := SentKeys(ops[..at]), Run(chart, w, ops[..at]).ledger;
    && |before| <= i < |SentKeys(ops)| && AllSettled(chart, l, collection, now)
    && SentKeys(ops)[|before|..i + 1] <= KeysOf(Fresh(Selection(choose, l, collection), Among(before)))
    && i + 1 - |before| <= want - |KeptOf(chart, w, ops[..at])|
  }

  ghost predicate IsChosen(chart: Chart, choose: Chooser, w: World, ops: seq<Op>, collection: string, now: int,
                           want: nat, i: nat)
    requires Chooses(choose)
  {
    exists at :: ChosenAt(chart, choose, w, ops, collection, now, want, at, i)
  }

  /** So it was with every key after those first selected. */
  ghost predicate Refilled(chart: Chart, choose: Chooser, w: World, ops: seq<Op>, collection: string, now: int,
                           want: nat)
    requires Chooses(choose)
  {
    forall i :: want <= i < |SentKeys(ops)| ==> IsChosen(chart, choose, w, ops, collection, now, want, i)
  }

  lemma ChosenStays(chart: Chart, choose: Chooser, w: World, ops: seq<Op>, more: seq<Op>, collection: string,
                    now: int, want: nat, at: nat, i: nat)
    requires Chooses(choose) && ChosenAt(chart, choose, w, ops, collection, now, want, at, i)
    ensures ChosenAt(chart, choose, w, ops + more, collection, now, want, at, i)
  {
    hide AllSettled, Fresh, Selection, Chooses, Run, KeptOf;
    SentGrows(ops, more);
    assert (ops + more)[..at] == ops[..at];
    hide SentKeys;
    var before := SentKeys(ops[..at]);
    assert SentKeys(ops + more)[|before|..i + 1] == SentKeys(ops)[|before|..i + 1];
  }

  lemma RefilledStays(chart: Chart, choose: Chooser, w: World, ops: seq<Op>, more: seq<Op>, collection: string,
                      now: int, want: nat)
    requires Chooses(choose) && Refilled(chart, choose, w, ops, collection, now, want)
    ensures forall i :: want <= i < |SentKeys(ops)| ==>
      IsChosen(chart, choose, w, ops + more, collection, now, want, i)
  {
    hide ChosenAt, SentKeys, Chooses;
    forall i | want <= i < |SentKeys(ops)|
      ensures IsChosen(chart, choose, w, ops + more, collection, now, want, i)
    {
      assert IsChosen(chart, choose, w, ops, collection, now, want, i);
      var at :| ChosenAt(chart, choose, w, ops, collection, now, want, at, i);
      ChosenStays(chart, choose, w, ops, more, collection, now, want, at, i);
    }
  }

  /** What is left to send of the batch chosen after a look. */
  ghost predicate IsBatch(chart: Chart, choose: Chooser, w: World, ops: seq<Op>, collection: string, now: int,
                          want: nat, at: nat, left: seq<nat>)
    requires Chooses(choose)
  {
    && at <= |ops|
    && var before, l := SentKeys(ops[..at]), Run(chart, w, ops[..at]).ledger;
    && before <= SentKeys(ops) && AllSettled(chart, l, collection, now)
    && SentKeys(ops)[|before|..] + left <= KeysOf(Fresh(Selection(choose, l, collection), Among(before)))
    && |SentKeys(ops)| - |before| + |left| <= want - |KeptOf(chart, w, ops[..at])|
  }

  lemma BatchOneMore(chart: Chart, choose: Chooser, w: World, ops: seq<Op>, collection: string, now: int,
                     want: nat, at: nat, left: seq<nat>, op: Op)
    requires Chooses(choose) && left != [] && SentBy(op) == [left[0]]
    requires IsBatch(chart, choose, w, ops, collection, now, want, at, left)
    ensures IsBatch(chart, choose, w, ops + [op], collection, now, want, at, left[1..])
    ensures ChosenAt(chart, choose, w, ops + [op], collection, now, want, at, |SentKeys(ops)|)
  {
    hide AllSettled, Fresh, Selection, Chooses, Run, KeptOf, SentKeys, SentBy, KeptBy, KeysOf;
    LogOneMore(chart, w, ops, op);
    assert (ops + [op])[..at] == ops[..at];
    var before, l := SentKeys(ops[..at]), Run(chart, w, ops[..at]).ledger;
    TailOneMore(before, SentKeys(ops), left, KeysOf(Fresh(Selection(choose, l, collection), Among(before))));
  }

  lemma TailOneMore(before: seq<nat>, sent: seq<nat>, left: seq<nat>, all: seq<nat>)
    requires before <= sent && left != [] && sent[|before|..] + left <= all
    ensures var more := sent + [left[0]];
      before <= more && more[|before|..] + left[1..] <= all && more[|before|..|sent| + 1] <= all
  {
    var more := sent + [left[0]];
    assert more[|before|..] + left[1..] == sent[|before|..] + left;
    assert more[|before|..|sent| + 1] == more[|before|..];
  }

  lemma RefilledOneMore(chart: Chart, choose: Chooser, w: World, ops: seq<Op>, collection: string, now: int,
                        want: nat, at: nat, left: seq<nat>, op: Op)
    requires Chooses(choose) && left != [] && SentBy(op) == [left[0]]
    requires Refilled(chart, choose, w, ops, collection, now, want)
    requires |SentKeys(ops)| < want || IsBatch(chart, choose, w, ops, collection, now, want, at, left)
    ensures Refilled(chart, choose, w, ops + [op], collection, now, want)
  {
    hide ChosenAt, IsBatch, Chooses, KeptOf, SentKeys;
    RefilledStays(chart, choose, w, ops, [op], collection, now, want);
    LogOneMore(chart, w, ops, op);
    if |SentKeys(ops)| >= want {
      BatchOneMore(chart, choose, w, ops, collection, now, want, at, left, op);
      assert IsChosen(chart, choose, w, ops + [op], collection, now, want, |SentKeys(ops)|);
    }
    hide IsChosen;
  }

  /** A batch chosen after looks, none of it sent yet. */
  lemma NewBatch(chart: Chart, choose: Chooser, w: World, ops: seq<Op>, collection: string, now: int, want: nat,
                 chosen: seq<Selected>)
    requires Chooses(choose) && AllSettled(chart, Run(chart, w, ops).ledger, collection, now)
    requires |KeptOf(chart, w, ops)| <= want
    requires chosen == Few(Fresh(Selection(choose, Run(chart, w, ops).ledger, collection), Among(SentKeys(ops))),
                           want - |KeptOf(chart, w, ops)|)
    ensures IsBatch(chart, choose, w, ops, collection, now, want, |ops|, KeysOf(chosen))
  {
    hide AllSettled, Fresh, Selection, Chooses, Run, KeptOf, SentKeys;
    assert ops[..|ops|] == ops;
    assert SentKeys(ops)[|SentKeys(ops)|..] == [];
  }

  /** Sending a stored record the event is a step that the store allows and all is kept by. */
  lemma SentFromRow(chart: Chart, w: World, from: Place, event: string, ctx: Context, now: int, collection: string)
    requires AtMostOneMove(chart) && Kept(w.ledger, w.book) && from in w.ledger.rows
    requires MovesOn(chart, collection, event, ctx, now) && from.collection == collection
    ensures Enabled(chart, w, Event(from, event, ctx, now))
    ensures var w' := Step(chart, w, Event(from, event, ctx, now));
      && Kept(w'.ledger, w'.book)
      && w'.ledger == Deliver(chart, w.ledger, from, w.ledger.rows[from], event, ctx, now)
      && OthersUntouched(w.ledger, w'.ledger, w.ledger.rows[from].id)
    ensures w.ledger.rows[from].key == from.key
  {
    hide Kept, Send, Booked, Deliver;
    HomeOf(w.ledger, w.book, from);
    KeyOfRow(w.ledger, w.book, from);
    DeliveryKeeps(chart, w.ledger, w.book, from, w.ledger.rows[from], event, ctx, now);
  }

  /** It has not gone on once as many were kept as were wanted. */
  ghost predicate StopsInTime(chart: Chart, w: World, ops: seq<Op>, want: nat) {
    ops != [] ==> |KeptOf(chart, w, ops[..|ops| - 1])| < want
  }

  lemma TimeOneMore(chart: Chart, w: World, ops: seq<Op>, op: Op, want: nat)
    requires |KeptOf(chart, w, ops)| < want
    ensures StopsInTime(chart, w, ops + [op], want)
  {
    assert (ops + [op])[..|ops + [op]| - 1] == ops;
  }

  lemma LooksInTime(chart: Chart, w: World, ops: seq<Op>, looks: seq<Op>, want: nat)
    requires |KeptOf(chart, w, ops)| < want && StopsInTime(chart, w, ops, want)
    requires forall op :: op in looks ==> op.Look?
    ensures StopsInTime(chart, w, ops + looks, want)
  {
    if looks == [] {
      assert ops + looks == ops;
    } else {
      LooksSendNothing(chart, w, ops, looks[..|looks| - 1]);
      assert (ops + looks)[..|ops + looks| - 1] == ops + looks[..|looks| - 1];
    }
  }

  lemma OneMoreDiffers(sent: seq<nat>, key: nat)
    requires Differ(sent) && key !in sent
    ensures Differ(sent + [key]) && Among(sent + [key]) == Among(sent) + {key}
  {
  }

  /** How far sending to a selection has come: what was sent, what is kept of it, and what is left of the
      batch, which is the selection at first and later what a refill chose. */
  ghost predicate IsSending(chart: Chart, choose: Chooser, w: World, ops: seq<Op>, collection: string, now: int,
                            selection: seq<nat>, kept: seq<Selected>, sent: set<nat>, at: nat, left: seq<nat>)
    requires Chooses(choose)
  {
    && kept == KeptOf(chart, w, ops) && |kept| <= |selection|
    && StopsInTime(chart, w, ops, |selection|)
    && Refilled(chart, choose, w, ops, collection, now, |selection|)
    && Differ(SentKeys(ops)) && sent == Among(SentKeys(ops))
    && (SentKeys(ops) + left == selection
      || (selection <= SentKeys(ops)
        && (left == [] || IsBatch(chart, choose, w, ops, collection, now, |selection|, at, left))))
  }

  lemma SendingGives(chart: Chart, choose: Chooser, w: World, ops: seq<Op>, collection: string, now: int,
                     selection: seq<nat>, kept: seq<Selected>, sent: set<nat>, at: nat, left: seq<nat>)
    requires Chooses(choose)
    requires IsSending(chart, choose, w, ops, collection, now, selection, kept, sent, at, left)
    ensures kept == KeptOf(chart, w, ops) && |kept| <= |selection| && StopsInTime(chart, w, ops, |selection|)
    ensures Refilled(chart, choose, w, ops, collection, now, |selection|)
    ensures Differ(SentKeys(ops)) && sent == Among(SentKeys(ops))
    ensures SentKeys(ops) <= selection || selection <= SentKeys(ops)
    ensures |kept| == |selection| ==> selection <= SentKeys(ops)
  {
    KeptAreSent(chart, w, ops);
    hide Chooses, Differ, Refilled, StopsInTime, SentKeys, KeptOf;
  }

  lemma {:induction false} KeptAreSent(chart: Chart, w: World, ops: seq<Op>)
    ensures |KeptOf(chart, w, ops)| <= |SentKeys(ops)|
  {
    if ops != [] {
      KeptAreSent(chart, w, ops[..|ops| - 1]);
      hide Run, Send;
    }
  }

  lemma SendingBegins(chart: Chart, choose: Chooser, w: World, collection: string, now: int, selection: seq<nat>)
    requires Chooses(choose)
    ensures IsSending(chart, choose, w, [], collection, now, selection, [], {}, 0, selection)
  {
    hide Chooses;
    assert [] + selection == selection;
  }

  lemma NothingSent(collection: string, event: string, ctx: Context, now: int)
    ensures SendsIn([], collection, event, ctx, now)
  {
  }

  lemma SendingOneMore(chart: Chart, choose: Chooser, w: World, ops: seq<Op>, collection: string, now: int,
                       selection: seq<nat>, kept: seq<Selected>, sent: set<nat>, at: nat, left: seq<nat>, op: Op)
    requires Chooses(choose) && left != [] && SentBy(op) == [left[0]] && left[0] !in sent && |kept| < |selection|
    requires IsSending(chart, choose, w, ops, collection, now, selection, kept, sent, at, left)
    ensures IsSending(chart, choose, w, ops + [op], collection, now, selection,
      kept + KeptBy(chart, Run(chart, w, ops), op), sent + {left[0]}, at, left[1..])
  {
    hide Chooses, IsBatch, Refilled, StopsInTime, Run, Differ;
    LogOneMore(chart, w, ops, op);
    hide SentKeys, KeptOf;
    TimeOneMore(chart, w, ops, op, |selection|);
    KeptOfOne(chart, w, ops, op);
    OneMoreDiffers(SentKeys(ops), left[0]);
    if SentKeys(ops) + left == selection {
      assert (SentKeys(ops) + [left[0]]) + left[1..] == selection;
    } else {
      BatchOneMore(chart, choose, w, ops, collection, now, |selection|, at, left, op);
    }
    RefilledOneMore(chart, choose, w, ops, collection, now, |selection|, at, left, op);
  }

  lemma KeptOfOne(chart: Chart, w: World, ops: seq<Op>, op: Op)
    ensures |KeptBy(chart, Run(chart, w, ops), op)| <= 1
  {
    hide Run, Send;
  }

  /** Looks taken between two batches. */
  lemma SendingLooks(chart: Chart, choose: Chooser, w: World, ops: seq<Op>, collection: string, now: int,
                     selection: seq<nat>, kept: seq<Selected>, sent: set<nat>, at: nat, looks: seq<Op>)
    requires Chooses(choose) && |kept| < |selection| && LooksIn(looks, collection, now)
    requires IsSending(chart, choose, w, ops, collection, now, selection, kept, sent, at, [])
    ensures IsSending(chart, choose, w, ops + looks, collection, now, selection, kept, sent, at, [])
    ensures selection <= SentKeys(ops + looks)
  {
    hide Chooses, IsBatch, StopsInTime, Run, Differ, Among, ChosenAt;
    LooksSendNothing(chart, w, ops, looks);
    hide SentKeys, KeptOf;
    LooksInTime(chart, w, ops, looks, |selection|);
    assert SentKeys(ops) + [] == SentKeys(ops);
    RefilledStays(chart, choose, w, ops, looks, collection, now, |selection|);
  }

  lemma SendingRefilled(chart: Chart, choose: Chooser, w: World, ops: seq<Op>, collection: string, now: int,
                        selection: seq<nat>, kept: seq<Selected>, sent: set<nat>, at: nat, chosen: seq<Selected>)
    requires Chooses(choose) && selection <= SentKeys(ops)
    requires IsSending(chart, choose, w, ops, collection, now, selection, kept, sent, at, [])
    requires var l := Run(chart, w, ops).ledger;
      && AllSettled(chart, l, collection, now)
      && chosen == Few(Fresh(Selection(choose, l, collection), sent), |selection| - |kept|)
    ensures IsSending(chart, choose, w, ops, collection, now, selection, kept, sent, |ops|, KeysOf(chosen))
  {
    hide Chooses, IsBatch, StopsInTime, Run, Differ, Refilled, Few, Fresh, Selection, AllSettled, SentKeys, KeptOf;
    hide Among;
    NewBatch(chart, choose, w, ops, collection, now, |selection|, chosen);
  }

  /** Sending the next of a batch, all that is known of a run with it. */
  lemma NextSent(chart: Chart, choose: Chooser, w: World, ops: seq<Op>, collection: string, event: string, ctx: Context,
                 now: int, selection: seq<nat>, kept: seq<Selected>, sent: set<nat>, at: nat, chosen: seq<Selected>)
    requires AtMostOneMove(chart) && MovesOn(chart, collection, event, ctx, now) && Chooses(choose)
    requires chosen != [] && |kept| < |selection| && chosen[0].key !in sent
    requires Possible(chart, w, ops) && Unfailing(chart, w, ops) && SendsIn(ops, collection, event, ctx, now)
    requires Kept(Run(chart, w, ops).ledger, Run(chart, w, ops).book)
    requires IsSending(chart, choose, w, ops, collection, now, selection, kept, sent, at, KeysOf(chosen))
    requires AreRows(chosen, Run(chart, w, ops).ledger, collection)
    ensures var l, from := Run(chart, w, ops).ledger, Place(collection, chosen[0].key);
      var outcome := Send(chart, chosen[0].rec, event, ctx, now, l.issued);
      var more := ops + [Event(from, event, ctx, now)];
      && from in l.rows && Possible(chart, w, more) && SendsIn(more, collection, event, ctx, now)
      && Run(chart, w, more).ledger == Deliver(chart, l, from, chosen[0].rec, event, ctx, now)
      && Kept(Run(chart, w, more).ledger, Run(chart, w, more).book)
      && EndsWith(chart, w, more, outcome.error)
      && IsSending(chart, choose, w, more, collection, now, selection, kept + Left(chart, outcome),
        sent + {chosen[0].key}, at, KeysOf(chosen[1..]))
      && AreRows(chosen[1..], Run(chart, w, more).ledger, collection)
    ensures forall s :: s in chosen[1..] ==> s.key != chosen[0].key
  {
    hide Kept, Possible, Run, Chooses, AtMostOneMove, MovesOn, Send, Deliver, OthersUntouched;
    hide Step, Enabled, IsSending, Unfailing, EndsWith, SentKeys, KeptOf, Differ;
    var before, from := Run(chart, w, ops), Place(collection, chosen[0].key);
    var op := Event(from, event, ctx, now);
    assert chosen[0] in chosen;
    SentFromRow(chart, before, from, event, ctx, now, collection);
    RunOneMore(chart, w, ops, op);
    EndsOneMore(chart, w, ops, op);
    SendingOneMore(chart, choose, w, ops, collection, now, selection, kept, sent, at, KeysOf(chosen), op);
    RestAreRows(chosen, before.ledger, Run(chart, w, ops + [op]).ledger, before.book, collection);
  }

  /** Looks taken for a refill, all that is known of a run with them. */
  lemma NextLooks(chart: Chart, choose: Chooser, w: World, ops: seq<Op>, collection: string, event: string,
                  ctx: Context, now: int, selection: seq<nat>, kept: seq<Selected>, sent: set<nat>, at: nat,
                  looks: seq<Op>, error: Option<Error>)
    requires Chooses(choose) && |kept| < |selection| && LooksIn(looks, collection, now)
    requires Possible(chart, w, ops) && Unfailing(chart, w, ops) && SendsIn(ops, collection, event, ctx, now)
    requires IsSending(chart, choose, w, ops, collection, now, selection, kept, sent, at, [])
    requires Possible(chart, Run(chart, w, ops), looks) && EndsWith(chart, Run(chart, w, ops), looks, error)
    ensures Possible(chart, w, ops + looks) && SendsIn(ops + looks, collection, event, ctx, now)
    ensures Run(chart, w, ops + looks) == Run(chart, Run(chart, w, ops), looks)
    ensures EndsWith(chart, w, ops + looks, error)
    ensures IsSending(chart, choose, w, ops + looks, collection, now, selection, kept, sent, at, [])
    ensures selection <= SentKeys(ops + looks)
  {
    hide Possible, Run, Chooses, EndsWith, Unfailing, IsSending, SentKeys;
    RunsJoin(chart, w, ops, looks);
    EndsJoin(chart, w, ops, looks, error);
    SendingLooks(chart, choose, w, ops, collection, now, selection, kept, sent, at, looks);
  }

  /** Sends the event to the records of a selection, and to freshly selected ones in place of those it
      redrove, until as many as were selected are kept or there is none left that was not sent it. It
      does to the store what the looks and events it took do, so all that a run keeps is kept. The selection
      is sent the event first and in order, then what the refills choose, none twice; kept is what the event
      left of each but those it redrove; and it stops at the first error, or once enough are kept, or when
      a look has settled all the rows and every key there is to choose was sent the event. */
  method SendForEach(engine: Engine, collection: string, selection: seq<Selected>, event: string, ctx: Context,
                     now: int, choose: Chooser, ghost book: Book)
    returns (kept: seq<Selected>, error: Option<Error>, ghost ops: seq<Op>)
    requires AtMostOneMove(engine.chart) && RedrivenEnds(engine.chart)
    requires MovesOn(engine.chart, collection, event, ctx, now)
    requires Kept(engine.Value(), book) && Chooses(choose) && AreRows(selection, engine.Value(), collection)
    modifies engine
    ensures var start := World(old(engine.Value()), book);
      && Possible(engine.chart, start, ops) && SendsIn(ops, collection, event, ctx, now)
      && Run(engine.chart, start, ops).ledger == engine.Value()
      && Kept(engine.Value(), Run(engine.chart, start, ops).book)
      && EndsWith(engine.chart, start, ops, error)
      && kept == KeptOf(engine.chart, start, ops) && |kept| <= |selection|
      && StopsInTime(engine.chart, start, ops, |selection|)
      && Refilled(engine.chart, choose, start, ops, collection, now, |selection|)
    ensures Differ(SentKeys(ops))
    ensures SentKeys(ops) <= KeysOf(selection) || KeysOf(selection) <= SentKeys(ops)
    ensures error.None? ==> KeysOf(selection) <= SentKeys(ops)
    ensures error.None? && |kept| < |selection| ==>
      && AllSettled(engine.chart, engine.Value(), collection, now)
      && forall k :: k in choose(engine.Value(), collection) ==> k in SentKeys(ops)
  {
    hide Kept, Possible, Run, Chooses, AtMostOneMove, RedrivenEnds, MovesOn, Send, Settled, Deliver, OthersUntouched;
    hide Unseen, Step, Enabled, IsSending, Unfailing, AllSettled, Few, Fresh, Selection, SentKeys, KeptOf;
    hide Differ, SendsIn;
    ghost var start := World(engine.Value(), book);
    ghost var first := KeysOf(selection);
    RunNothing(engine.chart, start);
    SendingBegins(engine.chart, choose, start, collection, now, first);
    NoneFail(engine.chart, start);
    NothingSent(collection, event, ctx, now);
    var want := |selection|;
    var chosen := selection;
    var sentTo: set<nat> := {};
    ghost var at: nat := 0;
    kept, error, ops := [], None, [];
    while |kept| < want
      invariant error.None? && Possible(engine.chart, start, ops) && Unfailing(engine.chart, start, ops)
      invariant SendsIn(ops, collection, event, ctx, now)
      invariant Run(engine.chart, start, ops).ledger == engine.Value()
      invariant Kept(engine.Value(), Run(engine.chart, start, ops).book)
      invariant IsSending(engine.chart, choose, start, ops, collection, now, first, kept, sentTo, at, KeysOf(chosen))
      invariant AreRows(chosen, engine.Value(), collection)
      invariant forall s :: s in chosen ==> s.key !in sentTo
      decreases want - |kept|, |Unseen(engine.Value(), collection, sentTo)|
    {
      if chosen == [] {
        ghost var looks, before := [], engine.Value();
        chosen, error, looks :=
          Refill(engine, collection, now, choose, sentTo, want - |kept|, Run(engine.chart, start, ops).book);
        NextLooks(engine.chart, choose, start, ops, collection, event, ctx, now, first, kept, sentTo, at, looks, error);
        ops := ops + looks;
        UnseenByKeys(before, engine.Value(), collection, sentTo);
        if error.Some? || chosen == [] {
          SendingGives(engine.chart, choose, start, ops, collection, now, first, kept, sentTo, at, []);
          return;
        }
        SendingRefilled(engine.chart, choose, start, ops, collection, now, first, kept, sentTo, at, chosen);
        at := |ops|;
      }
      var s := chosen[0];
      ghost var l, from := engine.Value(), Place(collection, s.key);
      assert s in chosen;
      NextSent(engine.chart, choose, start, ops, collection, event, ctx, now, first, kept, sentTo, at, chosen);
      ops := ops + [Event(from, event, ctx, now)];
      var live := new LiveRecord(s.rec);
      error := SendAndWrite(engine, Place(collection, s.key), live, event, ctx, now);
      chosen, sentTo := chosen[1..], sentTo + {s.key};
      assert kept + [] == kept;
      if error.Some? {
        SendingGives(engine.chart, choose, start, ops, collection, now, first, kept, sentTo, at, KeysOf(chosen));
        return;
      }
      if StateOf(live.Value(), engine.chart) != "redriven" {
        kept := kept + [Selected(live.key, live.Value())];
      } else {
        RedrivenLeaves(engine.chart, l, from, s.rec, event, ctx, now, sentTo - {s.key});
        assert sentTo - {s.key} + {s.key} == sentTo;
      }
    }
    SendingGives(engine.chart, choose, start, ops, collection, now, first, kept, sentTo, at, KeysOf(chosen));
  }
}
