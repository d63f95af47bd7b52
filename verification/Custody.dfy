/** One row per message, and every handle of a message leads to it: what events, moves and rekeying
    keep of the store, over any run. */
module Custody {
  import opened Statecharts
  import opened Queues

  /** Where a message is and the keys it has had since it came there, the last one current. */
  datatype Trail = Trail(collection: string, keys: seq<nat>) {
    predicate Started() {
      keys != []
    }

    function Current(): nat
      requires Started()
    {
      keys[|keys| - 1]
    }

    function Home(): Place
      requires Started()
    {
      Place(collection, Current())
    }
  }

  /** The trails of the messages that have not come to an end, the message each key was issued to,
      and the keys that were replaced by another. */
  datatype Book = Book(trails: map<nat, Trail>, owner: map<nat, nat>, replaced: set<nat>)

  ghost predicate RowsAreBooked(l: Ledger, book: Book) {
    forall p :: p in l.rows ==>
      && l.rows[p].id in book.trails && book.trails[l.rows[p].id].Started()
      && p == book.trails[l.rows[p].id].Home() && l.rows[p].key == p.key
  }

  /** Each key of a trail is the message's own, and all but the last lead to the next. */
  ghost predicate Linked(l: Ledger, book: Book, id: nat, trail: Trail) {
    && trail.Started() && trail.Home() in l.rows && l.rows[trail.Home()].id == id
    && (forall i :: 0 <= i < |trail.keys| ==> trail.keys[i] in book.owner && book.owner[trail.keys[i]] == id)
    && trail.Current() !in book.replaced
    && (forall i :: 0 <= i < |trail.keys| - 1 ==>
      Place(trail.collection, trail.keys[i]) in l.aliases
      && l.aliases[Place(trail.collection, trail.keys[i])] == trail.keys[i + 1])
    && (forall i, j :: 0 <= i < j < |trail.keys| ==> trail.keys[i] != trail.keys[j])
  }

  ghost predicate AllLinked(l: Ledger, book: Book) {
    forall id :: id in book.trails ==> Linked(l, book, id, book.trails[id])
  }

  ghost predicate Registered(l: Ledger, book: Book) {
    && (forall k :: k in book.owner ==> k < l.issued)
    && (forall k :: k in book.replaced ==> k < l.issued)
    && (forall p :: p in l.aliases ==> p.key in book.replaced)
  }

  ghost predicate Kept(l: Ledger, book: Book) {
    RowsAreBooked(l, book) && AllLinked(l, book) && Registered(l, book)
  }

  // ---------------------------------------------------------------- what it means

  /** A message that has not come to an end has exactly one row; one that has, has none. */
  lemma OneRow(l: Ledger, book: Book, id: nat)
    requires Kept(l, book)
    ensures id in book.trails ==>
      exists p :: p in l.rows && l.rows[p].id == id && forall q :: q in l.rows && l.rows[q].id == id ==> q == p
    ensures id !in book.trails ==> forall p :: p in l.rows ==> l.rows[p].id != id
  {
    if id in book.trails {
      assert Linked(l, book, id, book.trails[id]);
      assert book.trails[id].Home() in l.rows;
    }
  }

  /** Every handle a message has had since it came to its queue resolves to its row. */
  lemma HandlesResolve(l: Ledger, book: Book, id: nat, i: nat)
    requires Kept(l, book) && id in book.trails && i < |book.trails[id].keys|
    ensures var trail := book.trails[id];
      && Resolve(l.aliases, Place(trail.collection, trail.keys[i]), {}) == trail.Current()
      && trail.Home() in l.rows && l.rows[trail.Home()].id == id
  {
    assert Linked(l, book, id, book.trails[id]);
    ChainResolves(l, book, id, book.trails[id], i, {});
  }

  lemma {:induction false} ChainResolves(l: Ledger, book: Book, id: nat, trail: Trail, i: nat, seen: set<Place>)
    requires Registered(l, book) && Linked(l, book, id, trail) && i < |trail.keys|
    requires forall j :: i <= j < |trail.keys| ==> Place(trail.collection, trail.keys[j]) !in seen
    ensures Resolve(l.aliases, Place(trail.collection, trail.keys[i]), seen) == trail.Current()
    decreases |trail.keys| - i
  {
    if i < |trail.keys| - 1 {
      ChainResolves(l, book, id, trail, i + 1, seen + {Place(trail.collection, trail.keys[i])});
    } else {
      assert Place(trail.collection, trail.keys[i]) !in l.aliases;
    }
  }

  // ---------------------------------------------------------------- one event

  /** The actions generate a key or leave the one there was, never change whose record it is, and a
      move stores the record it is given. */
  ghost predicate KeyFrom(rec: Record, key: nat, id: nat, before: nat, after: nat) {
    rec.id == id && (rec.key == key || before <= rec.key < after)
  }

  lemma {:induction false} ActionsKeepIdentity(actions: seq<Action>, rec: Record, ctx: Context, now: int, issued: nat)
    ensures var acted := ActAll(actions, rec, ctx, now, issued);
      && issued <= acted.issued
      && KeyFrom(acted.rec, rec.key, rec.id, issued, acted.issued)
      && forall a :: a in acted.arrivals ==> KeyFrom(a.rec, rec.key, rec.id, issued, acted.issued)
  {
    if actions != [] {
      ActionsKeepIdentity(actions[..|actions| - 1], rec, ctx, now, issued);
    }
  }

  function Moves(actions: seq<Action>): nat {
    if actions == [] then 0 else Moves(actions[..|actions| - 1]) + if actions[|actions| - 1].Move? then 1 else 0
  }

  ghost predicate AtMostOneMove(chart: Chart) {
    forall s, e, t :: s in chart.states && e in chart.states[s].on && t in chart.states[s].on[e] ==>
        Moves(t.actions) <= 1
  }

  lemma {:induction false} OneArrivalPerMove(actions: seq<Action>, rec: Record, ctx: Context, now: int, issued: nat)
    ensures |ActAll(actions, rec, ctx, now, issued).arrivals| == Moves(actions)
  {
    if actions != [] {
      OneArrivalPerMove(actions[..|actions| - 1], rec, ctx, now, issued);
    }
  }

  lemma SettleKeepsIdentity(chart: Chart, rec: Record, now: int, hops: nat, changed: bool)
    ensures var out := Hop(chart, rec, now, hops, changed).rec;
      out.id == rec.id && out.key == rec.key
    decreases hops
  {
  }

  lemma SendKeepsIdentity(chart: Chart, rec: Record, event: string, ctx: Context, now: int, issued: nat)
    requires AtMostOneMove(chart)
    ensures var sent := Send(chart, rec, event, ctx, now, issued);
      && issued <= sent.issued && |sent.arrivals| <= 1
      && KeyFrom(sent.rec, rec.key, rec.id, issued, sent.issued)
      && (forall a :: a in sent.arrivals ==> KeyFrom(a.rec, rec.key, rec.id, issued, sent.issued))
      && (!sent.changed || sent.error.Some? ==> sent.arrivals == [])
  {
    hide Hop, ActAll, Moves;
    SettleKeepsIdentity(chart, rec, now, |chart.states| + 1, false);
    var settled := Settled(chart, rec, now);
    var here := settled.rec;
    if settled.error.None? && StateOf(here, chart) in chart.states && event in chart.states[StateOf(here, chart)].on {
      var chosen := Chosen(chart.states[StateOf(here, chart)].on[event], here, ctx);
      if chosen.Some? {
        ActionsKeepIdentity(chosen.value.actions, here, ctx, now, issued);
        OneArrivalPerMove(chosen.value.actions, here, ctx, now, issued);
      }
    }
  }

  /** How the event of one message changes the book: a move starts a new trail, a final state ends the
      trail, a new key in place lengthens it. */
  function Booked(chart: Chart, book: Book, from: Place, id: nat, sent: Sent): Book
    requires id in book.trails
  {
    if sent.error.Some? || !sent.changed then book
    else if sent.arrivals != [] then
      var a := sent.arrivals[|sent.arrivals| - 1];
      BookMove(book, id, a.collection, a.rec.key)
    else if IsFinal(chart, sent.rec) then BookEnd(book, id)
    else if sent.rec.key != from.key then BookRekey(book, id, from, sent.rec.key)
    else book
  }

  function BookMove(book: Book, id: nat, to: string, key: nat): Book {
    Book(book.trails[id := Trail(to, [key])], book.owner[key := id], book.replaced)
  }

  function BookEnd(book: Book, id: nat): Book {
    book.(trails := book.trails - {id})
  }

  function BookRekey(book: Book, id: nat, from: Place, key: nat): Book
    requires id in book.trails
  {
    Book(book.trails[id := Trail(from.collection, book.trails[id].keys + [key])],
         book.owner[key := id], book.replaced + {from.key})
  }

  /** A move takes the record somewhere its row is not: another collection, or another key. */
  predicate MovesAway(from: Place, sent: Sent) {
    forall a :: a in sent.arrivals ==> Place(a.collection, a.rec.key) != from
  }

  lemma IssuingKeeps(l: Ledger, book: Book, n: nat)
    requires Kept(l, book) && l.issued <= n
    ensures Kept(l.(issued := n), book)
  {
    assert forall id :: id in book.trails ==> Linked(l, book, id, book.trails[id]);
  }

  /** A row is where its message's trail ends, under a key that is its own and was not replaced. */
  lemma HomeOf(l: Ledger, book: Book, p: Place)
    requires Kept(l, book) && p in l.rows
    ensures var id := l.rows[p].id;
      && id in book.trails && Linked(l, book, id, book.trails[id]) && book.trails[id].Home() == p
      && p.key in book.owner && book.owner[p.key] == id && p.key !in book.replaced
  {
    var id := l.rows[p].id;
    assert Linked(l, book, id, book.trails[id]);
    assert book.trails[id].keys[|book.trails[id].keys| - 1] == p.key;
  }

  lemma RewritingKeeps(l: Ledger, book: Book, from: Place, rec: Record)
    requires Kept(l, book) && from in l.rows && rec.id == l.rows[from].id && rec.key == from.key
    ensures Kept(l.(rows := l.rows[from := rec]), book)
  {
    hide Linked;
    var l' := l.(rows := l.rows[from := rec]);
    forall id | id in book.trails
      ensures Linked(l', book, id, book.trails[id])
    {
      RewrittenLinked(l, from, rec, book, id, book.trails[id]);
    }
  }

  lemma RewrittenLinked(l: Ledger, from: Place, rec: Record, book: Book, id: nat, trail: Trail)
    requires from in l.rows && rec.id == l.rows[from].id && Linked(l, book, id, trail)
    ensures Linked(l.(rows := l.rows[from := rec]), book, id, trail)
  {
  }

  /** Another message's trail does not notice its row go. */
  lemma OthersStay(l: Ledger, l': Ledger, book: Book, book': Book, id: nat)
    requires AllLinked(l, book) && id in book.trails && book'.trails.Keys - {id} == book.trails.Keys - {id}
    requires forall other :: other in book.trails && other != id ==>
        other in book'.trails && book'.trails[other] == book.trails[other]
    requires forall p :: p in l.rows && l.rows[p].id != id ==> p in l'.rows && l'.rows[p] == l.rows[p]
    requires forall k :: k in book.owner && book.owner[k] != id ==> k in book'.owner && book'.owner[k] == book.owner[k]
    requires forall k :: k in book'.replaced && k !in book.replaced ==> k in book.owner && book.owner[k] == id
    requires forall p :: p in l.aliases && p.key in book.owner && book.owner[p.key] != id ==>
        p in l'.aliases && l'.aliases[p] == l.aliases[p]
    ensures forall other :: other in book'.trails && other != id ==> Linked(l', book', other, book'.trails[other])
  {
    forall other | other in book'.trails && other != id
      ensures Linked(l', book', other, book'.trails[other])
    {
      assert other in book'.trails.Keys - {id};
      assert Linked(l, book, other, book.trails[other]);
    }
  }

  lemma DroppingKeeps(l: Ledger, book: Book, from: Place)
    requires Kept(l, book) && from in l.rows
    ensures Kept(l.(rows := l.rows - {from}), BookEnd(book, l.rows[from].id))
  {
    hide Linked;
    HomeOf(l, book, from);
    var l', book' := l.(rows := l.rows - {from}), BookEnd(book, l.rows[from].id);
    OthersStay(l, l', book, book', l.rows[from].id);
  }

  lemma RekeyedLinks(l: Ledger, l': Ledger, book: Book, id: nat, from: Place, key: nat)
    requires Registered(l, book) && id in book.trails && Linked(l, book, id, book.trails[id])
    requires book.trails[id].Home() == from && key >= l.issued
    requires l'.aliases == l.aliases[from := key]
    requires Place(from.collection, key) in l'.rows && l'.rows[Place(from.collection, key)].id == id
    ensures var book' := BookRekey(book, id, from, key);
      Linked(l', book', id, book'.trails[id])
  {
    var trail := book.trails[id];
    var longer := Trail(from.collection, trail.keys + [key]);
    assert longer.Current() == key;
    forall i | 0 <= i < |longer.keys| - 1
      ensures Place(from.collection, longer.keys[i]) in l'.aliases
      ensures l'.aliases[Place(from.collection, longer.keys[i])] == longer.keys[i + 1]
    {
      assert longer.keys[i] == trail.keys[i];
    }
  }

  lemma RekeyingKeeps(l: Ledger, book: Book, from: Place, rec: Record, n: nat)
    requires Kept(l, book) && from in l.rows && rec.id == l.rows[from].id && l.issued <= rec.key < n
    ensures Kept(Ledger((l.rows - {from})[Place(from.collection, rec.key) := rec], l.aliases[from := rec.key], n),
                 BookRekey(book, rec.id, from, rec.key))
  {
    hide Linked;
    HomeOf(l, book, from);
    var l' := Ledger((l.rows - {from})[Place(from.collection, rec.key) := rec], l.aliases[from := rec.key], n);
    var book' := BookRekey(book, rec.id, from, rec.key);
    forall p | p in l.rows && l.rows[p].id != rec.id
      ensures p in l'.rows && l'.rows[p] == l.rows[p]
    {
      HomeOf(l, book, p);
    }
    RekeyedLinks(l, l', book, rec.id, from, rec.key);
    OthersStay(l, l', book, book', rec.id);
  }

  lemma MovedLinks(l: Ledger, l': Ledger, book: Book, id: nat, to: string, key: nat)
    requires Registered(l, book) && key !in book.replaced
    requires Place(to, key) in l'.rows && l'.rows[Place(to, key)].id == id
    ensures Linked(l', BookMove(book, id, to, key), id, Trail(to, [key]))
  {
  }

  lemma MovingKeeps(l: Ledger, book: Book, from: Place, to: string, rec: Record, n: nat)
    requires Kept(l, book) && from in l.rows && l.issued <= n
    requires KeyFrom(rec, from.key, l.rows[from].id, l.issued, n) && Place(to, rec.key) != from
    ensures Kept(Ledger(l.rows[Place(to, rec.key) := rec] - {from}, l.aliases, n), BookMove(book, rec.id, to, rec.key))
  {
    hide Linked;
    HomeOf(l, book, from);
    var l' := Ledger(l.rows[Place(to, rec.key) := rec] - {from}, l.aliases, n);
    var book' := BookMove(book, rec.id, to, rec.key);
    forall p | p in l.rows && l.rows[p].id != rec.id
      ensures p in l'.rows && l'.rows[p] == l.rows[p]
    {
      HomeOf(l, book, p);
    }
    MovedLinks(l, l', book, rec.id, to, rec.key);
    OthersStay(l, l', book, book', rec.id);
  }

  ghost predicate OthersUntouched(l: Ledger, l': Ledger, id: nat) {
    forall p :: p in l.rows && l.rows[p].id != id ==> p in l'.rows && l'.rows[p] == l.rows[p]
  }

  /** An event to a stored message keeps one row for it and every other, and every handle live. */
  lemma DeliveryKeeps(chart: Chart, l: Ledger, book: Book, from: Place, rec: Record, event: string,
          ctx: Context, now: int)
    requires AtMostOneMove(chart) && Kept(l, book) && from in l.rows
    requires rec.id == l.rows[from].id && rec.key == from.key
    requires MovesAway(from, Send(chart, rec, event, ctx, now, l.issued))
    ensures rec.id in book.trails
    ensures var l' := Deliver(chart, l, from, rec, event, ctx, now);
      && Kept(l', Booked(chart, book, from, rec.id, Send(chart, rec, event, ctx, now, l.issued)))
      && OthersUntouched(l, l', rec.id)
  {
    SendKeepsIdentity(chart, rec, event, ctx, now, l.issued);
    HomeOf(l, book, from);
    DeliveryCases(chart, l, book, from, Send(chart, rec, event, ctx, now, l.issued));
  }

  lemma PutOne(rows: map<Place, Record>, a: Arrival)
    ensures PutAll(rows, [a]) == rows[Place(a.collection, a.rec.key) := a.rec]
  {
    assert [a][..0] == [];
    assert PutAll(rows, []) == rows;
  }

  /** A key a message is given is its own already or was never issued, so no other row is at it. */
  lemma NoOtherRowAt(l: Ledger, book: Book, from: Place, rec: Record, n: nat, collection: string)
    requires Kept(l, book) && from in l.rows && KeyFrom(rec, from.key, l.rows[from].id, l.issued, n)
    ensures Place(collection, rec.key) in l.rows ==> l.rows[Place(collection, rec.key)].id == rec.id
  {
    HomeOf(l, book, from);
    if Place(collection, rec.key) in l.rows {
      HomeOf(l, book, Place(collection, rec.key));
    }
  }

  lemma DeliveryCases(chart: Chart, l: Ledger, book: Book, from: Place, sent: Sent)
    requires Kept(l, book) && from in l.rows && l.rows[from].id in book.trails && l.issued <= sent.issued
    requires |sent.arrivals| <= 1 && (!sent.changed || sent.error.Some? ==> sent.arrivals == [])
    requires KeyFrom(sent.rec, from.key, l.rows[from].id, l.issued, sent.issued)
    requires forall a :: a in sent.arrivals ==> KeyFrom(a.rec, from.key, l.rows[from].id, l.issued, sent.issued)
    requires MovesAway(from, sent)
    ensures var l1 := AfterSend(l, sent);
      var l' := if sent.error.Some? then l1
          else WriteBack(chart, l1, from, sent.rec, sent.changed, sent.arrivals != []);
      Kept(l', Booked(chart, book, from, l.rows[from].id, sent)) && OthersUntouched(l, l', l.rows[from].id)
  {
    hide Kept;
    var l1 := l.(issued := sent.issued);
    IssuingKeeps(l, book, sent.issued);
    if sent.arrivals != [] {
      var a := sent.arrivals[0];
      assert sent.arrivals == [a] && a in sent.arrivals;
      PutOne(l.rows, a);
      NoOtherRowAt(l, book, from, a.rec, sent.issued, a.collection);
      MovingKeeps(l, book, from, a.collection, a.rec, sent.issued);
    } else {
      assert PutAll(l.rows, []) == l.rows;
      if sent.error.None? && sent.changed {
        if IsFinal(chart, sent.rec) {
          DroppingKeeps(l1, book, from);
        } else if sent.rec.key != from.key {
          NoOtherRowAt(l, book, from, sent.rec, sent.issued, from.collection);
          RekeyingKeeps(l, book, from, sent.rec, sent.issued);
        } else {
          RewritingKeeps(l1, book, from, sent.rec);
        }
      }
    }
  }

  // ---------------------------------------------------------------- any run

  /** A message created, an event sent to a row, and a row settled and written back by a look. */
  datatype Op =
    | Create(collection: string, id: nat, members: map<string, int>)
    | Event(from: Place, event: string, ctx: Context, now: int)
    | Look(at: Place, now: int)

  datatype World = World(ledger: Ledger, book: Book)

  ghost predicate Enabled(chart: Chart, w: World, op: Op) {
    match op
    case Create(collection, id, members) => id !in w.book.trails
    case Event(from, event, ctx, now) =>
      && from in w.ledger.rows
      && MovesAway(from, Send(chart, w.ledger.rows[from], event, ctx, now, w.ledger.issued))
    case Look(at, now) => at in w.ledger.rows
  }

  function Looked(chart: Chart, l: Ledger, at: Place, now: int): Ledger
    requires at in l.rows
  {
    var settled := Settled(chart, l.rows[at], now);
    if settled.error.None? && settled.changed then l.(rows := l.rows[at := settled.rec]) else l
  }

  ghost function Step(chart: Chart, w: World, op: Op): World {
    match op
    case Create(collection, id, members) =>
      var key := w.ledger.issued;
      var rec := Record(id, key, "", map[], members);
      World(Ledger(w.ledger.rows[Place(collection, key) := rec], w.ledger.aliases, key + 1),
            BookMove(w.book, id, collection, key))
    case Event(from, event, ctx, now) =>
      if from !in w.ledger.rows || w.ledger.rows[from].id !in w.book.trails then w
      else
        var rec := w.ledger.rows[from];
        World(Deliver(chart, w.ledger, from, rec, event, ctx, now),
              Booked(chart, w.book, from, rec.id, Send(chart, rec, event, ctx, now, w.ledger.issued)))
    case Look(at, now) =>
      if at !in w.ledger.rows then w else w.(ledger := Looked(chart, w.ledger, at, now))
  }

  ghost function Run(chart: Chart, w: World, ops: seq<Op>): World {
    if ops == [] then w else Step(chart, Run(chart, w, ops[..|ops| - 1]), ops[|ops| - 1])
  }

  ghost predicate Possible(chart: Chart, w: World, ops: seq<Op>) {
    ops == [] ||
    (Possible(chart, w, ops[..|ops| - 1]) && Enabled(chart, Run(chart, w, ops[..|ops| - 1]), ops[|ops| - 1]))
  }

  lemma CreatingKeeps(l: Ledger, book: Book, collection: string, id: nat, members: map<string, int>)
    requires Kept(l, book) && id !in book.trails
    ensures var rec := Record(id, l.issued, "", map[], members);
      Kept(Ledger(l.rows[Place(collection, l.issued) := rec], l.aliases, l.issued + 1),
        BookMove(book, id, collection, l.issued))
  {
    hide Linked;
    var rec := Record(id, l.issued, "", map[], members);
    var place := Place(collection, l.issued);
    var l' := Ledger(l.rows[place := rec], l.aliases, l.issued + 1);
    var book' := BookMove(book, id, collection, l.issued);
    forall p | p in l.rows
      ensures p != place && l.rows[p].id != id
    {
      HomeOf(l, book, p);
    }
    forall other | other in book.trails
      ensures Linked(l', book', other, book'.trails[other])
    {
      CreatedBeside(l, l', book, book', other);
    }
    MovedLinks(l, l', book, id, collection, l.issued);
  }

  lemma CreatedBeside(l: Ledger, l': Ledger, book: Book, book': Book, other: nat)
    requires Registered(l, book) && other in book.trails && Linked(l, book, other, book.trails[other])
    requires other in book'.trails && book'.trails[other] == book.trails[other]
    requires l'.aliases == l.aliases && book'.replaced == book.replaced
    requires forall p :: p in l.rows ==> p in l'.rows && l'.rows[p] == l.rows[p]
    requires forall k :: k in book.owner ==> k in book'.owner && (k < l.issued ==> book'.owner[k] == book.owner[k])
    ensures Linked(l', book', other, book'.trails[other])
  {
  }

  lemma StepKeeps(chart: Chart, w: World, op: Op)
    requires AtMostOneMove(chart) && Kept(w.ledger, w.book) && Enabled(chart, w, op)
    ensures Kept(Step(chart, w, op).ledger, Step(chart, w, op).book)
  {
    hide Kept, Send, Booked, Deliver, Settled;
    match op
    case Create(collection, id, members) =>
      CreatingKeeps(w.ledger, w.book, collection, id, members);
    case Event(from, event, ctx, now) =>
      HomeOf(w.ledger, w.book, from);
      KeyOfRow(w.ledger, w.book, from);
      DeliveryKeeps(chart, w.ledger, w.book, from, w.ledger.rows[from], event, ctx, now);
    case Look(at, now) =>
      LookKeeps(chart, w.ledger, w.book, at, now);
  }

  lemma LookKeeps(chart: Chart, l: Ledger, book: Book, at: Place, now: int)
    requires Kept(l, book) && at in l.rows
    ensures Kept(Looked(chart, l, at, now), book)
  {
    KeyOfRow(l, book, at);
    SettleKeepsIdentity(chart, l.rows[at], now, |chart.states| + 1, false);
    hide Kept, Hop;
    if Settled(chart, l.rows[at], now).error.None? && Settled(chart, l.rows[at], now).changed {
      RewritingKeeps(l, book, at, Settled(chart, l.rows[at], now).rec);
    }
  }

  lemma KeyOfRow(l: Ledger, book: Book, p: Place)
    requires Kept(l, book) && p in l.rows
    ensures l.rows[p].key == p.key
  {
  }

  lemma {:induction false} RunKeeps(chart: Chart, w: World, ops: seq<Op>)
    requires AtMostOneMove(chart) && Kept(w.ledger, w.book) && Possible(chart, w, ops)
    ensures Kept(Run(chart, w, ops).ledger, Run(chart, w, ops).book)
  {
    if ops != [] {
      RunKeeps(chart, w, ops[..|ops| - 1]);
      StepKeeps(chart, Run(chart, w, ops[..|ops| - 1]), ops[|ops| - 1]);
    }
  }

  const NOTHING := World(Ledger(map[], map[], 0), Book(map[], map[], {}))

  /** Whatever messages are created and whatever events they are sent, every message that has not come
      to an end has exactly one row, one that has has none, and every handle a message has had since
      it came to the queue it is in resolves to its row. */
  lemma OneRowPerMessage(chart: Chart, ops: seq<Op>, id: nat)
    requires AtMostOneMove(chart) && Possible(chart, NOTHING, ops)
    ensures var w := Run(chart, NOTHING, ops);
      if id in w.book.trails then
        var trail := w.book.trails[id];
        && trail.Started() && trail.Home() in w.ledger.rows && w.ledger.rows[trail.Home()].id == id
        && (forall p :: p in w.ledger.rows && w.ledger.rows[p].id == id ==> p == trail.Home())
        && (forall h :: h in trail.keys ==>
          Resolve(w.ledger.aliases, Place(trail.collection, h), {}) == trail.Current())
      else forall p :: p in w.ledger.rows ==> w.ledger.rows[p].id != id
  {
    assert Kept(NOTHING.ledger, NOTHING.book);
    RunKeeps(chart, NOTHING, ops);
    var w := Run(chart, NOTHING, ops);
    OneRow(w.ledger, w.book, id);
    if id in w.book.trails {
      var trail := w.book.trails[id];
      assert Linked(w.ledger, w.book, id, trail);
      forall h | h in trail.keys
        ensures Resolve(w.ledger.aliases, Place(trail.collection, h), {}) == trail.Current()
      {
        var i :| 0 <= i < |trail.keys| && trail.keys[i] == h;
        HandlesResolve(w.ledger, w.book, id, i);
      }
    }
  }

  // ---------------------------------------------------------------- where it ends

  /** A move that takes the record to the very row it came from deletes it: after a move the message
      has a row if and only if the move took it away. */
  lemma MoveKeepsTheRowExactly(chart: Chart, l: Ledger, book: Book, from: Place, event: string, ctx: Context, now: int)
    requires AtMostOneMove(chart) && Kept(l, book) && from in l.rows
    requires var sent := Send(chart, l.rows[from], event, ctx, now, l.issued);
      sent.error.None? && sent.arrivals != []
    ensures var id, l' := l.rows[from].id, Deliver(chart, l, from, l.rows[from], event, ctx, now);
      (exists p :: p in l'.rows && l'.rows[p].id == id)
      <==> MovesAway(from, Send(chart, l.rows[from], event, ctx, now, l.issued))
  {
    hide Send, Kept, AtMostOneMove, IsFinal;
    var rec := l.rows[from];
    var sent := Send(chart, rec, event, ctx, now, l.issued);
    KeyOfRow(l, book, from);
    SendKeepsIdentity(chart, rec, event, ctx, now, l.issued);
    OnlyRow(l, book, from);
    var a := sent.arrivals[0];
    assert sent.arrivals == [a];
    MovedRows(l.rows, from, a, rec.id);
    PutOne(l.rows, a);
    assert Deliver(chart, l, from, rec, event, ctx, now).rows == PutAll(l.rows, [a]) - {from};
  }

  lemma MovedRows(rows: map<Place, Record>, from: Place, a: Arrival, id: nat)
    requires a.rec.id == id && forall p :: p in rows && rows[p].id == id ==> p == from
    ensures var rows' := rows[Place(a.collection, a.rec.key) := a.rec] - {from};
      (exists p :: p in rows' && rows'[p].id == id) <==> Place(a.collection, a.rec.key) != from
  {
    var rows' := rows[Place(a.collection, a.rec.key) := a.rec] - {from};
    if Place(a.collection, a.rec.key) != from {
      assert Place(a.collection, a.rec.key) in rows';
    }
  }

  lemma OnlyRow(l: Ledger, book: Book, from: Place)
    requires Kept(l, book) && from in l.rows
    ensures forall p :: p in l.rows && l.rows[p].id == l.rows[from].id ==> p == from
  {
    hide Linked;
    forall p | p in l.rows && l.rows[p].id == l.rows[from].id
      ensures p == from
    {
      HomeOf(l, book, p);
      HomeOf(l, book, from);
    }
  }
}
