/** What a run of looks and events has done: which records were sent an event and in what order, what became
    of them, and where the run met an error (internal/engine/effects.go). */
module Sendings {
  import opened Options
  import opened Statecharts
  import opened Custody

  /** One chosen record and the key it came from. */
  datatype Selected = Selected(key: nat, rec: Record)

  function KeysOf(ss: seq<Selected>): (keys: seq<nat>)
    ensures |keys| == |ss| && forall i :: 0 <= i < |ss| ==> keys[i] == ss[i].key
  {
    seq(|ss|, i requires 0 <= i < |ss| => ss[i].key)
  }

  function Among(keys: seq<nat>): set<nat> {
    set k | k in keys
  }

  predicate Differ(keys: seq<nat>) {
    forall i, j :: 0 <= i < j < |keys| ==> keys[i] != keys[j]
  }

  // ---------------------------------------------------------------- runs put together

  lemma RunNothing(chart: Chart, w: World)
    ensures Possible(chart, w, []) && Run(chart, w, []) == w
  {
  }

  lemma RunOneMore(chart: Chart, w: World, ops: seq<Op>, op: Op)
    requires Possible(chart, w, ops) && Enabled(chart, Run(chart, w, ops), op)
    ensures Possible(chart, w, ops + [op])
    ensures Run(chart, w, ops + [op]) == Step(chart, Run(chart, w, ops), op)
  {
    assert (ops + [op])[..|ops + [op]| - 1] == ops;
  }

  lemma {:induction false} RunsJoin(chart: Chart, w: World, a: seq<Op>, b: seq<Op>)
    requires Possible(chart, w, a) && Possible(chart, Run(chart, w, a), b)
    ensures Possible(chart, w, a + b)
    ensures Run(chart, w, a + b) == Run(chart, Run(chart, w, a), b)
  {
    hide Step, Enabled;
    if b == [] {
      assert a + b == a;
    } else {
      RunsJoin(chart, w, a, b[..|b| - 1]);
      assert (a + b)[..|a + b| - 1] == a + b[..|b| - 1];
    }
  }

  // ---------------------------------------------------------------- where a run stops

  /** The error met by one look or event. */
  ghost function Failure(chart: Chart, w: World, op: Op): Option<Error> {
    match op
    case Create(_, _, _) => None
    case Event(from, event, ctx, now) =>
      if from !in w.ledger.rows then None
      else Send(chart, w.ledger.rows[from], event, ctx, now, w.ledger.issued).error
    case Look(at, now) =>
      if at !in w.ledger.rows then None else Settled(chart, w.ledger.rows[at], now).error
  }

  ghost predicate Unfailing(chart: Chart, w: World, ops: seq<Op>) {
    ops == [] ||
    (Unfailing(chart, w, ops[..|ops| - 1]) && Failure(chart, Run(chart, w, ops[..|ops| - 1]), ops[|ops| - 1]).None?)
  }

  /** A run ends with the first error it meets, and if it ends with none it met none. */
  ghost predicate EndsWith(chart: Chart, w: World, ops: seq<Op>, error: Option<Error>) {
    if error.None? then Unfailing(chart, w, ops)
    else
      && ops != [] && Unfailing(chart, w, ops[..|ops| - 1])
      && Failure(chart, Run(chart, w, ops[..|ops| - 1]), ops[|ops| - 1]) == error
  }

  lemma EndsOneMore(chart: Chart, w: World, ops: seq<Op>, op: Op)
    requires Unfailing(chart, w, ops)
    ensures EndsWith(chart, w, ops + [op], Failure(chart, Run(chart, w, ops), op))
  {
    assert (ops + [op])[..|ops + [op]| - 1] == ops;
  }

  lemma {:induction false} EndsJoin(chart: Chart, w: World, a: seq<Op>, b: seq<Op>, error: Option<Error>)
    requires Possible(chart, w, a) && Possible(chart, Run(chart, w, a), b)
    requires Unfailing(chart, w, a) && EndsWith(chart, Run(chart, w, a), b, error)
    ensures EndsWith(chart, w, a + b, error)
  {
    hide Step, Enabled, Failure;
    if b == [] {
      assert a + b == a;
    } else {
      var init := b[..|b| - 1];
      EndsJoin(chart, w, a, init, None);
      RunsJoin(chart, w, a, init);
      assert (a + b)[..|a + b| - 1] == a + init;
    }
  }

  // ---------------------------------------------------------------- what a run sent and kept

  function SentBy(op: Op): seq<nat> {
    if op.Event? then [op.from.key] else []
  }

  /** The keys of the records that were sent an event, in the order they were sent it. */
  function SentKeys(ops: seq<Op>): seq<nat> {
    if ops == [] then [] else SentKeys(ops[..|ops| - 1]) + SentBy(ops[|ops| - 1])
  }

  /** What an event leaves its caller of the record: nothing if it failed, or redrove it. */
  function Left(chart: Chart, sent: Sent): seq<Selected> {
    if sent.error.Some? || StateOf(sent.rec, chart) == "redriven" then [] else [Selected(sent.rec.key, sent.rec)]
  }

  ghost function KeptBy(chart: Chart, w: World, op: Op): seq<Selected> {
    match op
    case Event(from, event, ctx, now) =>
      if from !in w.ledger.rows then []
      else Left(chart, Send(chart, w.ledger.rows[from], event, ctx, now, w.ledger.issued))
    case _ => []
  }

  /** The records sent an event as it left them, in the order they were sent it, less those it redrove. */
  ghost function KeptOf(chart: Chart, w: World, ops: seq<Op>): seq<Selected> {
    if ops == [] then []
    else KeptOf(chart, w, ops[..|ops| - 1]) + KeptBy(chart, Run(chart, w, ops[..|ops| - 1]), ops[|ops| - 1])
  }

  lemma LogOneMore(chart: Chart, w: World, ops: seq<Op>, op: Op)
    ensures SentKeys(ops + [op]) == SentKeys(ops) + SentBy(op)
    ensures KeptOf(chart, w, ops + [op]) == KeptOf(chart, w, ops) + KeptBy(chart, Run(chart, w, ops), op)
  {
    assert (ops + [op])[..|ops + [op]| - 1] == ops;
  }

  /** Every step is a look at a row of the collection. */
  predicate LooksIn(ops: seq<Op>, collection: string, now: int) {
    forall op :: op in ops ==> op.Look? && op.at.collection == collection && op.now == now
  }

  /** Every step is a look at a row of the collection, or this event sent to one. */
  predicate SendsIn(ops: seq<Op>, collection: string, event: string, ctx: Context, now: int) {
    forall op :: op in ops ==>
      || (op.Look? && op.at.collection == collection && op.now == now)
      || (op.Event? && op == Event(op.from, event, ctx, now) && op.from.collection == collection)
  }

  /** Looks send nothing. */
  lemma {:induction false} LooksSendNothing(chart: Chart, w: World, ops: seq<Op>, looks: seq<Op>)
    requires forall op :: op in looks ==> op.Look?
    ensures SentKeys(ops + looks) == SentKeys(ops) && KeptOf(chart, w, ops + looks) == KeptOf(chart, w, ops)
  {
    hide Run, SentKeys, KeptOf, Send;
    if looks == [] {
      assert ops + looks == ops;
    } else {
      var init, last := looks[..|looks| - 1], looks[|looks| - 1];
      assert looks == init + [last] && last in looks;
      LooksSendNothing(chart, w, ops, init);
      assert ops + looks == (ops + init) + [last];
      LogOneMore(chart, w, ops + init, last);
    }
  }

  /** Events sent before looks are taken, and after. */
  lemma {:induction false} LooksBefore(chart: Chart, w: World, looks: seq<Op>, ops: seq<Op>)
    requires Possible(chart, w, looks) && Possible(chart, Run(chart, w, looks), ops)
    requires forall op :: op in looks ==> op.Look?
    ensures SentKeys(looks + ops) == SentKeys(ops)
    ensures KeptOf(chart, w, looks + ops) == KeptOf(chart, Run(chart, w, looks), ops)
  {
    hide Step, Enabled, Run, SentKeys, KeptOf;
    if ops == [] {
      LooksSendNothing(chart, w, [], looks);
      LogOfNothing(chart, Run(chart, w, looks));
      LogOfNothing(chart, w);
      assert [] + looks == looks == looks + [];
    } else {
      var init, last := ops[..|ops| - 1], ops[|ops| - 1];
      LooksBefore(chart, w, looks, init);
      RunsJoin(chart, w, looks, init);
      LogOneMore(chart, w, looks + init, last);
      LogOneMore(chart, Run(chart, w, looks), init, last);
      assert looks + ops == (looks + init) + [last] && ops == init + [last];
    }
  }

  lemma LogOfNothing(chart: Chart, w: World)
    ensures SentKeys([]) == [] && KeptOf(chart, w, []) == []
  {
  }

  /** What a run sends begins with what a part of it does. */
  lemma {:induction false} SentGrows(ops: seq<Op>, more: seq<Op>)
    ensures SentKeys(ops) <= SentKeys(ops + more)
  {
    if more == [] {
      assert ops + more == ops;
    } else {
      SentGrows(ops, more[..|more| - 1]);
      assert (ops + more)[..|ops + more| - 1] == ops + more[..|more| - 1];
    }
  }
}
