/** The store an engine keeps messages in, and what one event does to it: the record written back,
    rekeyed, moved to another queue, or deleted (internal/engine/effects.go, with the alias chain of
    internal/engine/statechart.go). */
module Queues {
  import opened Options
  import opened Statecharts

  datatype Place = Place(collection: string, key: nat)

  /** Rows of every collection, what each replaced key was replaced by, and the next unissued key:
      generated keys are fresh, which is what their 64 random bytes stand for. */
  datatype Ledger = Ledger(rows: map<Place, Record>, aliases: map<Place, nat>, issued: nat)

  predicate IsFinal(chart: Chart, rec: Record) {
    StateOf(rec, chart) in chart.states && chart.states[StateOf(rec, chart)].final
  }

  function PutAll(rows: map<Place, Record>, arrivals: seq<Arrival>): map<Place, Record> {
    if arrivals == [] then rows
    else
      var last := arrivals[|arrivals| - 1];
      PutAll(rows, arrivals[..|arrivals| - 1])[Place(last.collection, last.rec.key) := last.rec]
  }

  /** Persists one event's outcome over the row the record came from. */
  function WriteBack(chart: Chart, l: Ledger, from: Place, rec: Record, changed: bool, moved: bool): Ledger {
    if !changed && !moved then l
    else if moved || IsFinal(chart, rec) then l.(rows := l.rows - {from})
    else if rec.key != from.key then
      l.(aliases := l.aliases[from := rec.key],
         rows := (l.rows - {from})[Place(from.collection, rec.key) := rec])
    else l.(rows := l.rows[from := rec])
  }

  function AfterSend(l: Ledger, sent: Sent): Ledger {
    l.(rows := PutAll(l.rows, sent.arrivals), issued := sent.issued)
  }

  /** One event to the record that came from a row: an error stops before anything is written. */
  function Deliver(chart: Chart, l: Ledger, from: Place, rec: Record, event: string, ctx: Context, now: int): Ledger {
    var sent := Send(chart, rec, event, ctx, now, l.issued);
    if sent.error.Some? then AfterSend(l, sent)
    else WriteBack(chart, AfterSend(l, sent), from, sent.rec, sent.changed, sent.arrivals != [])
  }

  /** The key an alias chain ends in. A key seen before ends the walk too, so any table of aliases,
      a cyclic one included, resolves every key. */
  function Resolve(aliases: map<Place, nat>, at: Place, seen: set<Place>): nat
    decreases |aliases.Keys - seen|
  {
    if at in seen || at !in aliases then at.key
    else
      assert aliases.Keys - (seen + {at}) < aliases.Keys - seen by {
        assert at in aliases.Keys - seen;
      }
      Shrinks(aliases.Keys - seen, at);
      assert aliases.Keys - (seen + {at}) == aliases.Keys - seen - {at};
      Resolve(aliases, Place(at.collection, aliases[at]), seen + {at})
  }

  lemma Shrinks<T>(s: set<T>, x: T)
    requires x in s
    ensures |s - {x}| < |s|
  {
  }

  /** The engine's store, changed in place. */
  class Engine {
    const chart: Chart
    var rows: map<Place, Record>
    var aliases: map<Place, nat>
    var issued: nat

    constructor (chart: Chart)
      ensures this.chart == chart && Value() == Ledger(map[], map[], 0)
    {
      this.chart := chart;
      rows, aliases, issued := map[], map[], 0;
    }

    function Value(): Ledger
      reads this
    {
      Ledger(rows, aliases, issued)
    }

    /** One action, on the record and, for a move, on the collection it goes to. */
    method RunAction(live: LiveRecord, action: Action, ctx: Context, now: int) returns (moved: bool)
      modifies live, this`rows, this`issued
      ensures var acted := Act(action, old(live.Value()), ctx, now, old(issued));
        && live.Value() == acted.rec && issued == acted.issued
        && rows == PutAll(old(rows), acted.arrivals)
        && (moved <==> acted.arrivals != [])
    {
      moved := false;
      match action
      case Set(name, value) =>
        live.members := live.members[name := value(live.Value(), ctx)];
      case Rekey =>
        live.key := issued;
        issued := issued + 1;
      case Arm(name, after) =>
        live.deadlines := live.deadlines[name := now + after(live.Value(), ctx)];
      case Move(to, state) =>
        if state != "" {
          live.state := state;
          live.deadlines := map[];
        }
        var place := Place(to(live.Value(), ctx), live.key);
        ghost var arrival := Arrival(place.collection, live.Value());
        assert PutAll(rows, []) == rows && [arrival][..0] == [];
        rows := rows[place := live.Value()];
        moved := true;
    }

    /** Applies one event to one record. */
    method SendEvent(live: LiveRecord, event: string, ctx: Context, now: int)
      returns (changed: bool, moved: bool, error: Option<Error>)
      modifies live, this`rows, this`issued
      ensures var sent := Send(chart, old(live.Value()), event, ctx, now, old(issued));
        && live.Value() == sent.rec && changed == sent.changed && error == sent.error
        && (moved <==> sent.arrivals != [])
        && Value() == AfterSend(old(Value()), sent)
    {
      moved := false;
      changed, error := live.Settle(chart, now);
      if error.Some? {
        return;
      }
      var name := StateOf(live.Value(), chart);
      if name !in chart.states {
        error := Some(UndefinedState(name));
        return;
      }
      if event !in chart.states[name].on {
        return;
      }
      var transitions := chart.states[name].on[event];
      ghost var here := live.Value();
      for i := 0 to |transitions|
        invariant live.Value() == here && Value() == old(Value())
        invariant !moved && error.None?
        invariant Chosen(transitions[i..], here, ctx) == Chosen(transitions, here, ctx)
      {
        var t := transitions[i];
        if t.guard(live.Value(), ctx) {
          if t.target !in chart.states {
            error := Some(UnknownTarget(t.target));
            return;
          }
          moved := RunActions(live, t.actions, ctx, now);
          live.state := t.target;
          changed := true;
          return;
        }
      }
    }

    method RunActions(live: LiveRecord, actions: seq<Action>, ctx: Context, now: int) returns (moved: bool)
      modifies live, this`rows, this`issued
      ensures var acted := ActAll(actions, old(live.Value()), ctx, now, old(issued));
        && live.Value() == acted.rec && issued == acted.issued
        && rows == PutAll(old(rows), acted.arrivals)
        && (moved <==> acted.arrivals != [])
    {
      moved := false;
      for i := 0 to |actions|
        invariant var acted := ActAll(actions[..i], old(live.Value()), ctx, now, old(issued));
          && live.Value() == acted.rec && issued == acted.issued
          && rows == PutAll(old(rows), acted.arrivals)
          && (moved <==> acted.arrivals != [])
      {
        ghost var before := ActAll(actions[..i], old(live.Value()), ctx, now, old(issued));
        ghost var last := Act(actions[i], before.rec, ctx, now, before.issued);
        var didMove := RunAction(live, actions[i], ctx, now);
        moved := moved || didMove;
        assert actions[..i + 1][..i] == actions[..i];
        PutAllJoins(old(rows), before.arrivals, last.arrivals);
      }
      assert actions[..|actions|] == actions;
    }

    /** Persists the outcome of one event. */
    method SettleWrite(from: Place, live: LiveRecord, changed: bool, moved: bool)
      modifies this`rows, this`aliases
      ensures Value() == WriteBack(chart, old(Value()), from, live.Value(), changed, moved)
    {
      if !changed && !moved {
        return;
      }
      var final := false;
      var name := StateOf(live.Value(), chart);
      if name in chart.states {
        final := chart.states[name].final;
      }
      if moved || final {
        rows := rows - {from};
        return;
      }
      var place := from;
      if live.key != from.key {
        aliases := aliases[from := live.key];
        rows := rows - {from};
        place := Place(from.collection, live.key);
      }
      rows := rows[place := live.Value()];
    }

    /** Follows the alias chain from a key a caller holds. */
    method ResolveKeyAlias(collection: string, key: nat) returns (current: nat)
      ensures current == Resolve(aliases, Place(collection, key), {})
    {
      current := key;
      var seen: set<Place> := {};
      while Place(collection, current) !in seen
        invariant Resolve(aliases, Place(collection, current), seen) == Resolve(aliases, Place(collection, key), {})
        decreases |aliases.Keys - seen|
      {
        var at := Place(collection, current);
        if at !in aliases {
          return;
        }
        Shrinks(aliases.Keys - seen, at);
        assert aliases.Keys - (seen + {at}) == aliases.Keys - seen - {at};
        seen := seen + {at};
        current := aliases[at];
      }
    }
  }

  lemma {:induction false} PutAllJoins(rows: map<Place, Record>, a: seq<Arrival>, b: seq<Arrival>)
    ensures PutAll(rows, a + b) == PutAll(PutAll(rows, a), b)
  {
    if b == [] {
      assert a + b == a;
    } else {
      assert (a + b)[..|a + b| - 1] == a + b[..|b| - 1];
      PutAllJoins(rows, a, b[..|b| - 1]);
    }
  }
}
